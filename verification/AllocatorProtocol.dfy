/** The shared block allocator under every interleaving of its users: `BlockAllocator`, dynamic
    `PageWriter`s, their `complete` and `drop`, and the gate in `finish` (`page_writer.rs`). */
module AllocatorProtocol {
  import opened Bytes
  import opened PageAllocation
  import opened PageFile
  import opened PageFormat
  import opened Results

  // ---------------------------------------------------------------- states

  datatype Config = Config(pageSize: PageBytes, bootstrapEnd: nat, blockPages: nat) {
    function Pending(): nat {
      LockPage(pageSize)
    }
  }

  type Range = (nat, nat)

  /** Where a writer stands between two shared accesses. */
  datatype Pc =
    | Claimed                                        // root claimed, not yet counted as active
    | Idle                                           // between two operations
    | Returning(ranges: seq<Range>, needed: nat)     // giving its tail back before a new grant
    | Swapping(needed: nat, start: nat)              // counter read, exchange not yet tried
    | Failing                                        // its tree failed; the flag is not yet set
    | Closing(ranges: seq<Range>)                    // completing: tail on its way back
    | Done                                           // completed
    | Dropping                                       // dropped without completing
    | Abandoned                                      // flag set, still counted
    | Lost                                           // dropped and no longer counted

  /** `next..end` is the rest of the block; `image` is what it wrote, `buffer` the part not flushed. */
  datatype Writer = Writer(pc: Pc, next: nat, end: nat, written: set<nat>, roots: set<nat>, image: File, buffer: File)

  datatype Phase = Running | NoneActive | Passed | Finished | Rejected

  datatype State = State(
    next: nat, active: int, failed: bool, roots: set<nat>, spool: seq<Range>, freeCount: nat,
    disk: File, writers: map<nat, Writer>, phase: Phase)

  /** Workers go by the root page they were forked for; no root is page 0. */
  const COORDINATOR: nat := 0

  function NewWriter(pc: Pc, at: nat, roots: set<nat>): Writer {
    Writer(pc, at, at, {}, roots, map[], map[])
  }

  predicate Initial(c: Config, s: State) {
    && c.bootstrapEnd > 1
    && s == State(c.bootstrapEnd, 0, false, {}, [], 0, s.disk, map[COORDINATOR := NewWriter(Idle, c.bootstrapEnd, {})],
                  Running)
  }

  // ---------------------------------------------------------------- steps

  datatype Action =
    | Fork | Activate | Claim(root: nat) | Append(page: seq<byte>) | WriteRoot(root: nat, page: seq<byte>) | Flush
    | Retire(needed: nat) | Spool | Load | Swap | Fail | SetFailed
    | Close | Leave | Drop | StoreFailed | Vanish
    | ReadActive | ReadFailed | Publish

  predicate CanWrite(s: State, id: nat) {
    id in s.writers && s.writers[id].pc.Idle? && (id == COORDINATOR ==> s.phase.Running?)
  }

  predicate RootIsFree(c: Config, s: State, root: nat) {
    1 < root < c.bootstrapEnd && root !in s.roots
  }

  predicate Spooling(pc: Pc) {
    (pc.Returning? || pc.Closing?) && pc.ranges != []
  }

  predicate Enabled(c: Config, s: State, id: nat, a: Action) {
    if a.Fork? then s.phase.Running? && id !in s.writers && RootIsFree(c, s, id)
    else
      && id in s.writers
      && var w := s.writers[id];
      match a
      case Fork => false
      case Activate => w.pc.Claimed?
      case Claim(root) => id == COORDINATOR && CanWrite(s, id) && RootIsFree(c, s, root)
      case Append(page) => CanWrite(s, id) && Available(w.next, w.end, c.Pending()) >= 1
      case WriteRoot(root, page) => CanWrite(s, id) && root in w.roots
      case Flush => CanWrite(s, id)
      case Retire(needed) => CanWrite(s, id) && Available(w.next, w.end, c.Pending()) < needed
      case Spool => Spooling(w.pc)
      case Load => w.pc.Returning? && w.pc.ranges == []
      case Swap => w.pc.Swapping?
      case Fail => CanWrite(s, id)
      case SetFailed => w.pc.Failing?
      case Close => id != COORDINATOR && CanWrite(s, id) && !s.failed
      case Leave => id != COORDINATOR && w.pc == Closing([])
      case Drop => id != COORDINATOR && CanWrite(s, id)
      case StoreFailed => w.pc.Dropping?
      case Vanish => w.pc.Abandoned?
      case ReadActive => id == COORDINATOR && CanWrite(s, id)
                         && forall other | other in s.writers :: !s.writers[other].pc.Claimed?
      case ReadFailed => id == COORDINATOR && s.phase.NoneActive? && w.pc.Idle?
      case Publish => id == COORDINATOR && s.phase.Passed? && w.pc == Closing([])
  }

  function With(s: State, id: nat, w: Writer): State {
    s.(writers := s.writers[id := w])
  }

  /** Flushes the buffer and starts giving the rest of the block back. */
  function GiveBack(c: Config, s: State, id: nat, pc: Pc): State
    requires id in s.writers
  {
    var w := s.writers[id];
    With(s, id, w.(pc := pc, end := w.next, buffer := map[])).(disk := s.disk + w.buffer)
  }

  function Appended(c: Config, w: Writer, page: seq<byte>): Writer {
    var id := Skip(w.next, c.Pending());
    var buffer := if w.next == c.Pending() then w.buffer[w.next := Zeros(c.pageSize)] else w.buffer;
    w.(next := id + 1, written := w.written + {id}, image := w.image[id := page], buffer := buffer[id := page])
  }

  /** The exchange: it succeeds only when the counter still has the value read before. */
  function Swapped(c: Config, s: State, id: nat): State
    requires id in s.writers && s.writers[id].pc.Swapping?
  {
    var w := s.writers[id];
    var pages := if c.blockPages > w.pc.needed then c.blockPages else w.pc.needed;
    match RangeEnd(w.pc.start, pages, c.Pending())
    case Err(_) => With(s, id, w.(pc := Failing))
    case Ok(end) =>
      if s.next == w.pc.start then With(s, id, w.(pc := Idle, next := w.pc.start, end := end)).(next := end)
      else With(s, id, w.(pc := Swapping(w.pc.needed, s.next)))
  }

  function Spooled(s: State, id: nat): State
    requires id in s.writers && Spooling(s.writers[id].pc)
  {
    var w := s.writers[id];
    var r := w.pc.ranges[0];
    With(s, id, w.(pc := w.pc.(ranges := w.pc.ranges[1..]))).(
      spool := s.spool + [r], freeCount := s.freeCount + if r.0 <= r.1 then r.1 - r.0 else 0)
  }

  function Effect(c: Config, s: State, id: nat, a: Action): State
    requires Enabled(c, s, id, a)
  {
    if a.Fork? then With(s, id, NewWriter(Claimed, 0, {id})).(roots := s.roots + {id})
    else
      var w := s.writers[id];
      var tail := UsableRanges(w.next, w.end, c.Pending());
      match a
      case Activate => With(s, id, w.(pc := Idle)).(active := s.active + 1)
      case Claim(root) => With(s, id, w.(roots := w.roots + {root})).(roots := s.roots + {root})
      case Append(page) => With(s, id, Appended(c, w, page))
      case WriteRoot(root, page) => With(s, id, w.(image := w.image[root := page], buffer := w.buffer[root := page]))
      case Flush => With(s, id, w.(buffer := map[])).(disk := s.disk + w.buffer)
      case Retire(needed) => GiveBack(c, s, id, Returning(tail, needed))
      case Spool => Spooled(s, id)
      case Load => With(s, id, w.(pc := Swapping(w.pc.needed, s.next)))
      case Swap => Swapped(c, s, id)
      case Fail => With(s, id, w.(pc := Failing))
      case SetFailed => With(s, id, w.(pc := Idle)).(failed := true)
      case Close => GiveBack(c, s, id, Closing(tail))
      case Leave => With(s, id, w.(pc := Done)).(active := s.active - 1)
      case Drop => With(s, id, w.(pc := Dropping))
      case StoreFailed => With(s, id, w.(pc := Abandoned)).(failed := true)
      case Vanish => With(s, id, w.(pc := Lost)).(active := s.active - 1)
      case ReadActive => s.(phase := if s.active == 0 then NoneActive else Rejected)
      case ReadFailed => if s.failed then s.(phase := Rejected) else GiveBack(c, s, id, Closing(tail)).(phase := Passed)
      case Publish => With(s, id, w.(pc := Done)).(phase := Finished)
  }

  /** A run: any writer may take any enabled step. */
  ghost predicate Run(c: Config, states: seq<State>, ids: seq<nat>, actions: seq<Action>) {
    && |states| == |ids| + 1 == |actions| + 1
    && Initial(c, states[0])
    && forall i | 0 <= i < |ids| :: Enabled(c, states[i], ids[i], actions[i])
                                    && states[i + 1] == Effect(c, states[i], ids[i], actions[i])
  }

  // ---------------------------------------------------------------- who holds a page

  datatype Owner = Lock | Free | Of(id: nat)

  ghost predicate In(ranges: seq<Range>, p: nat) {
    exists i :: 0 <= i < |ranges| && ranges[i].0 <= p < ranges[i].1
  }

  ghost function Pages(ranges: seq<Range>): int {
    if ranges == [] then 0 else Pages(ranges[..|ranges| - 1]) + ranges[|ranges| - 1].1 - ranges[|ranges| - 1].0
  }

  ghost predicate Separate(ranges: seq<Range>) {
    && (forall i | 0 <= i < |ranges| :: ranges[i].0 < ranges[i].1)
    && forall i, j | 0 <= i < j < |ranges| :: ranges[i].1 <= ranges[j].0 || ranges[j].1 <= ranges[i].0
  }

  /** Pages on their way back to the free list. */
  function InFlight(pc: Pc): seq<Range> {
    if pc.Returning? || pc.Closing? then pc.ranges else []
  }

  /** The old block is given up and the buffer is flushed. */
  predicate Retired(pc: Pc) {
    pc.Returning? || pc.Swapping? || pc.Closing? || pc.Done?
  }

  ghost predicate Holds(c: Config, w: Writer, p: nat) {
    p in w.written || (w.next <= p < w.end && p != c.Pending()) || In(InFlight(w.pc), p)
  }

  ghost predicate WriterOk(c: Config, w: Writer) {
    && w.next <= w.end && (w.next < w.end ==> c.bootstrapEnd <= w.next) && Separate(InFlight(w.pc))
    && (Retired(w.pc) ==> w.next == w.end)
    && forall p | p in w.written :: !(w.next <= p < w.end) && !In(InFlight(w.pc), p)
  }

  ghost predicate Ownership(c: Config, s: State, owner: map<nat, Owner>) {
    && (forall p :: p in owner <==> c.bootstrapEnd <= p < s.next)
    && (forall p | p in owner :: owner[p] == Lock <==> p == c.Pending())
    && (forall p :: In(s.spool, p) <==> p in owner && owner[p] == Free)
    && (forall id, p | id in s.writers :: Holds(c, s.writers[id], p) <==> p in owner && owner[p] == Of(id))
    && (forall p | p in owner && owner[p].Of? :: owner[p].id in s.writers)
    && c.bootstrapEnd <= s.next && Separate(s.spool) && s.freeCount == Pages(s.spool)
    && forall id | id in s.writers :: WriterOk(c, s.writers[id])
  }

  lemma UsableAreSeparate(start: nat, end: nat, pending: nat)
    requires start <= end
    ensures Separate(UsableRanges(start, end, pending))
    ensures forall p: nat :: In(UsableRanges(start, end, pending), p) <==> start <= p < end && p != pending
  {
    var ranges := UsableRanges(start, end, pending);
    forall p: nat | start <= p < end && p != pending ensures In(ranges, p) {
      if p < pending || pending < start || pending >= end {
        assert ranges[0].0 <= p < ranges[0].1;
      } else {
        assert ranges[|ranges| - 1].0 <= p < ranges[|ranges| - 1].1;
      }
    }
  }

  lemma FirstRange(ranges: seq<Range>, p: nat)
    requires ranges != []
    ensures In(ranges, p) <==> ranges[0].0 <= p < ranges[0].1 || In(ranges[1..], p)
    ensures Separate(ranges) ==> Separate(ranges[1..]) && !(ranges[0].0 <= p < ranges[0].1 && In(ranges[1..], p))
  {
    if i :| 0 <= i < |ranges| && ranges[i].0 <= p < ranges[i].1 {
      if i > 0 {
        assert ranges[1..][i - 1] == ranges[i];
      }
    }
    if i :| 0 <= i < |ranges[1..]| && ranges[1..][i].0 <= p < ranges[1..][i].1 {
      assert ranges[i + 1] == ranges[1..][i];
    }
  }

  lemma PushRange(ranges: seq<Range>, r: Range, p: nat)
    ensures In(ranges + [r], p) <==> In(ranges, p) || r.0 <= p < r.1
    ensures Pages(ranges + [r]) == Pages(ranges) + r.1 - r.0
  {
    var longer := ranges + [r];
    assert longer[..|ranges|] == ranges && longer[|ranges|] == r;
    if In(ranges, p) {
      var i :| 0 <= i < |ranges| && ranges[i].0 <= p < ranges[i].1;
      assert longer[i] == ranges[i];
    }
  }

  /** A step after which the writer holds the same pages keeps everyone's pages. */
  lemma SameHoldings(c: Config, s: State, owner: map<nat, Owner>, id: nat, w: Writer, s': State)
    requires Ownership(c, s, owner) && id in s.writers && s'.writers == s.writers[id := w]
    requires s'.next == s.next && s'.spool == s.spool && s'.freeCount == s.freeCount
    requires WriterOk(c, w) && forall p :: Holds(c, w, p) <==> Holds(c, s.writers[id], p)
    ensures Ownership(c, s', owner)
  {
    hide Holds, In, Separate, WriterOk;
  }

  lemma ForkOwnership(c: Config, s: State, owner: map<nat, Owner>, id: nat, s': State)
    requires Ownership(c, s, owner) && Enabled(c, s, id, Fork) && s' == Effect(c, s, id, Fork)
    ensures Ownership(c, s', owner)
  {
    hide Ownership, LockPage, In;
    var w := NewWriter(Claimed, 0, {id});
    NoRanges();
    NewHolder(c, s, owner, id, w, s');
  }

  lemma NewHolder(c: Config, s: State, owner: map<nat, Owner>, id: nat, w: Writer, s': State)
    requires Ownership(c, s, owner) && id !in s.writers && s'.writers == s.writers[id := w]
    requires s'.next == s.next && s'.spool == s.spool && s'.freeCount == s.freeCount
    requires WriterOk(c, w) && forall p: nat :: !Holds(c, w, p)
    ensures Ownership(c, s', owner)
  {
    hide Holds, In, Separate, WriterOk, Pages;
    assert forall p | p in owner :: owner[p] != Of(id);
  }

  lemma NoRanges()
    ensures forall p: nat :: !In([], p)
  {
  }

  lemma AppendHoldings(c: Config, w: Writer, page: seq<byte>)
    requires WriterOk(c, w) && w.pc.Idle? && Available(w.next, w.end, c.Pending()) >= 1
    ensures WriterOk(c, Appended(c, w, page))
    ensures forall p :: Holds(c, Appended(c, w, page), p) <==> Holds(c, w, p)
  {
    hide LockPage;
  }

  lemma GiveBackHoldings(c: Config, w: Writer, pc: Pc)
    requires WriterOk(c, w) && w.pc.Idle? && (pc.Returning? || pc.Closing?)
    requires pc.ranges == UsableRanges(w.next, w.end, c.Pending())
    ensures var w' := w.(pc := pc, end := w.next, buffer := map[]);
            WriterOk(c, w') && forall p :: Holds(c, w', p) <==> Holds(c, w, p)
  {
    UsableAreSeparate(w.next, w.end, c.Pending());
    hide UsableRanges, LockPage;
  }

  function OwnerAfter(c: Config, s: State, owner: map<nat, Owner>, id: nat, s': State): map<nat, Owner> {
    map p | c.bootstrapEnd <= p < s'.next ::
      if p == c.Pending() then Lock
      else if p !in owner then Of(id)
      else if owner[p] == Of(id) && |s'.spool| > |s.spool| && s'.spool[|s.spool|].0 <= p < s'.spool[|s.spool|].1 then
           Free
      else owner[p]
  }

  lemma HeldIsNotFree(c: Config, s: State, owner: map<nat, Owner>, id: nat, p: nat)
    requires Ownership(c, s, owner) && id in s.writers && Holds(c, s.writers[id], p)
    ensures !In(s.spool, p) && c.bootstrapEnd <= p < s.next && p != c.Pending()
  {
    hide Holds, In, Separate, WriterOk;
  }

  lemma RangeIsHeld(c: Config, w: Writer, p: nat)
    requires Spooling(w.pc) && w.pc.ranges[0].0 <= p < w.pc.ranges[0].1
    ensures Holds(c, w, p)
  {
    assert InFlight(w.pc)[0].0 <= p < InFlight(w.pc)[0].1;
  }

  lemma SpoolIsSeparate(c: Config, s: State, owner: map<nat, Owner>, id: nat, r: Range)
    requires Ownership(c, s, owner) && id in s.writers && Spooling(s.writers[id].pc) && r == s.writers[id].pc.ranges[0]
    ensures Separate(s.spool + [r])
  {
    hide Holds, LockPage;
    assert r.0 < r.1 by {
      assert WriterOk(c, s.writers[id]);
    }
    assert Separate(s.spool);
    forall i | 0 <= i < |s.spool| ensures s.spool[i].1 <= r.0 || r.1 <= s.spool[i].0 {
      var other := s.spool[i];
      if other.1 > r.0 && r.1 > other.0 {
        var p := if other.0 > r.0 then other.0 else r.0;
        assert other.0 <= p < other.1;
        RangeIsHeld(c, s.writers[id], p);
        HeldIsNotFree(c, s, owner, id, p);
        assert false;
      }
    }
    hide Ownership;
  }

  /** One page range passes from a writer to the free list. */
  lemma MoveToFree(c: Config, s: State, owner: map<nat, Owner>, id: nat, w: Writer, r: Range, s': State)
    requires Ownership(c, s, owner) && id in s.writers && s'.next == s.next
    requires s'.writers == s.writers[id := w] && s'.spool == s.spool + [r] && s'.freeCount == Pages(s'.spool)
    requires forall p: nat :: In(s'.spool, p) <==> In(s.spool, p) || r.0 <= p < r.1
    requires forall p: nat :: Holds(c, s.writers[id], p) <==> Holds(c, w, p) || r.0 <= p < r.1
    requires forall p: nat :: !(Holds(c, w, p) && r.0 <= p < r.1)
    requires Separate(s'.spool) && WriterOk(c, w)
    ensures Ownership(c, s', OwnerAfter(c, s, owner, id, s'))
  {
    hide Holds, In, Separate, WriterOk, Pages, LockPage, OwnerAfter;
    var owner' := OwnerAfter(c, s, owner, id, s');
    assert forall p: nat | r.0 <= p < r.1 :: p in owner && owner[p] == Of(id);
    FreedPages(c, s, owner, id, r, s');
    assert forall p :: In(s'.spool, p) <==> p in owner' && owner'[p] == Free;
  }

  lemma FreedPages(c: Config, s: State, owner: map<nat, Owner>, id: nat, r: Range, s': State)
    requires s'.next == s.next && s'.spool == s.spool + [r]
    requires forall p :: p in owner <==> c.bootstrapEnd <= p < s.next
    requires forall p | p in owner :: owner[p] == Lock <==> p == c.Pending()
    requires forall p: nat | r.0 <= p < r.1 :: p in owner && owner[p] == Of(id)
    ensures var after := OwnerAfter(c, s, owner, id, s');
            && (forall p :: p in after <==> p in owner)
            && forall p | p in owner :: after[p] == if r.0 <= p < r.1 then Free else owner[p]
  {
    hide LockPage;
    assert s'.spool[|s.spool|] == r;
  }

  lemma SpoolOwnership(c: Config, s: State, owner: map<nat, Owner>, id: nat)
    requires Ownership(c, s, owner) && Enabled(c, s, id, Spool)
    ensures Ownership(c, Effect(c, s, id, Spool), OwnerAfter(c, s, owner, id, Effect(c, s, id, Spool)))
  {
    hide LockPage, Ownership, Pages, In, Separate;
    var s', w := Effect(c, s, id, Spool), s.writers[id];
    var ranges := w.pc.ranges;
    var r, w' := ranges[0], s'.writers[id];
    OwnedOk(c, s, owner, id);
    forall p: nat
      ensures In(ranges, p) <==> r.0 <= p < r.1 || In(ranges[1..], p)
      ensures !(r.0 <= p < r.1 && In(ranges[1..], p))
      ensures In(s'.spool, p) <==> In(s.spool, p) || r.0 <= p < r.1
    {
      FirstRange(ranges, p);
      PushRange(s.spool, r, p);
    }
    PushRange(s.spool, r, 0);
    FirstRange(ranges, 0);
    SpoolIsSeparate(c, s, owner, id, r);
    assert r.0 < r.1 by {
      FirstIsNotEmpty(ranges);
    }
    MoveToFree(c, s, owner, id, w', r, s');
  }

  lemma FirstIsNotEmpty(ranges: seq<Range>)
    requires Separate(ranges) && ranges != []
    ensures ranges[0].0 < ranges[0].1
  {
  }

  lemma OwnedOk(c: Config, s: State, owner: map<nat, Owner>, id: nat)
    requires Ownership(c, s, owner) && id in s.writers
    ensures WriterOk(c, s.writers[id]) && s.freeCount == Pages(s.spool) && c.bootstrapEnd <= s.next
  {
  }

  lemma GrantOwnership(c: Config, s: State, owner: map<nat, Owner>, id: nat, end: nat, s': State)
    requires Ownership(c, s, owner) && id in s.writers && s.writers[id].pc.Swapping? && s.next <= end
    requires s' == With(s, id, s.writers[id].(pc := Idle, next := s.next, end := end)).(next := end)
    ensures Ownership(c, s', OwnerAfter(c, s, owner, id, s'))
  {
    hide LockPage, Ownership, In, Separate;
    var w, w' := s.writers[id], s'.writers[id];
    OwnedOk(c, s, owner, id);
    NoRanges();
    forall p: nat | Holds(c, w, p) ensures p < s.next {
      HeldIsNotFree(c, s, owner, id, p);
    }
    assert forall p: nat :: Holds(c, w', p) <==> Holds(c, w, p) || (s.next <= p < end && p != c.Pending());
    assert forall p | p in w.written :: Holds(c, w, p);
    NewBlock(c, s, owner, id, w', end, s');
  }

  lemma NewBlock(c: Config, s: State, owner: map<nat, Owner>, id: nat, w: Writer, end: nat, s': State)
    requires Ownership(c, s, owner) && id in s.writers && s'.next == end >= s.next
    requires s'.writers == s.writers[id := w] && s'.spool == s.spool && s'.freeCount == s.freeCount
    requires forall p: nat :: Holds(c, w, p) <==> Holds(c, s.writers[id], p) || (s.next <= p < end && p != c.Pending())
    requires WriterOk(c, w)
    ensures Ownership(c, s', OwnerAfter(c, s, owner, id, s'))
  {
    hide Holds, In, Separate, WriterOk, Pages, LockPage;
    var owner' := OwnerAfter(c, s, owner, id, s');
    assert forall p :: In(s'.spool, p) <==> p in owner' && owner'[p] == Free;
  }

  lemma SameBlock(c: Config, w: Writer, w': Writer)
    requires WriterOk(c, w) && w'.next == w.next && w'.end == w.end && w'.written == w.written
    requires InFlight(w'.pc) == InFlight(w.pc)
    requires Retired(w'.pc) ==> Retired(w.pc)
    ensures WriterOk(c, w') && forall p :: Holds(c, w', p) <==> Holds(c, w, p)
  {
  }

  /** Steps that leave every block and range where it is. */
  predicate KeepsBlocks(a: Action) {
    !(a.Fork? || a.Append? || a.Retire? || a.Close? || a.ReadFailed? || a.Spool? || a.Swap?)
  }

  lemma KeepsBlocksSame(c: Config, s: State, id: nat, a: Action)
    requires Enabled(c, s, id, a) && KeepsBlocks(a)
    ensures id in s.writers
    ensures var s', w := Effect(c, s, id, a), s.writers[id];
            && id in s'.writers && s'.writers == s.writers[id := s'.writers[id]]
            && s'.next == s.next && s'.spool == s.spool && s'.freeCount == s.freeCount
            && var w' := s'.writers[id];
            && w'.next == w.next && w'.end == w.end && w'.written == w.written && InFlight(w'.pc) == InFlight(w.pc)
            && (Retired(w'.pc) ==> Retired(w.pc))
  {
    hide LockPage, RangeEnd, UsableRanges, Appended, Available;
    assert s.writers == s.writers[id := s.writers[id]];
  }

  /** Steps that start giving a block back. */
  lemma TailOwnership(c: Config, s: State, owner: map<nat, Owner>, id: nat, pc: Pc, s': State)
    requires Ownership(c, s, owner) && id in s.writers && s.writers[id].pc.Idle? && (pc.Returning? || pc.Closing?)
    requires pc.ranges == UsableRanges(s.writers[id].next, s.writers[id].end, c.Pending())
    requires s'.writers == GiveBack(c, s, id, pc).writers && s'.next == s.next && s'.spool == s.spool
             && s'.freeCount == s.freeCount
    ensures Ownership(c, s', owner)
  {
    hide LockPage, Ownership, Holds, In, Separate, WriterOk, UsableRanges;
    OwnedOk(c, s, owner, id);
    GiveBackHoldings(c, s.writers[id], pc);
    SameHoldings(c, s, owner, id, s'.writers[id], s');
  }

  lemma SwapOwnership(c: Config, s: State, owner: map<nat, Owner>, id: nat) returns (owner': map<nat, Owner>)
    requires Ownership(c, s, owner) && Enabled(c, s, id, Swap)
    ensures Ownership(c, Effect(c, s, id, Swap), owner')
  {
    hide LockPage, Ownership, Holds, In, Separate, WriterOk, UsableRanges;
    var s', w := Swapped(c, s, id), s.writers[id];
    var w' := s'.writers[id];
    if w'.pc.Idle? {
      owner' := OwnerAfter(c, s, owner, id, s');
      GrantOwnership(c, s, owner, id, s'.next, s');
    } else {
      owner' := owner;
      FailedSwap(c, s, id);
      OwnedOk(c, s, owner, id);
      SameBlock(c, w, w');
      SameHoldings(c, s, owner, id, w', s');
    }
  }

  /** An exchange that does not succeed leaves every block as it is. */
  lemma FailedSwap(c: Config, s: State, id: nat)
    requires id in s.writers && s.writers[id].pc.Swapping? && !Swapped(c, s, id).writers[id].pc.Idle?
    ensures var s', w := Swapped(c, s, id), s.writers[id];
            && s'.writers == s.writers[id := s'.writers[id]] && s'.next == s.next && s'.spool == s.spool
               && s'.freeCount == s.freeCount
            && var w' := s'.writers[id];
            && w'.next == w.next && w'.end == w.end && w'.written == w.written
            && InFlight(w'.pc) == InFlight(w.pc) == [] && (Retired(w'.pc) ==> Retired(w.pc))
  {
    hide LockPage, RangeEnd;
  }

  /** Every step keeps each page with exactly one owner. */
  lemma StepOwnership(c: Config, s: State, owner: map<nat, Owner>, id: nat, a: Action)
    returns (owner': map<nat, Owner>)
    requires Ownership(c, s, owner) && Enabled(c, s, id, a)
    ensures Ownership(c, Effect(c, s, id, a), owner')
  {
    hide LockPage, Ownership, Holds, In, Separate, WriterOk, RangeEnd, UsableRanges, Appended, Available, Swapped,
         Spooled;
    owner' := owner;
    if KeepsBlocks(a) {
      KeepsBlocksOwnership(c, s, owner, id, a);
    } else if a.Fork? {
      ForkOwnership(c, s, owner, id, Effect(c, s, id, a));
    } else if a.Append? {
      OwnedOk(c, s, owner, id);
      AppendHoldings(c, s.writers[id], a.page);
      SameHoldings(c, s, owner, id, Appended(c, s.writers[id], a.page), Effect(c, s, id, a));
    } else if a.Spool? {
      owner' := OwnerAfter(c, s, owner, id, Effect(c, s, id, Spool));
      SpoolOwnership(c, s, owner, id);
    } else if a.Swap? {
      owner' := SwapOwnership(c, s, owner, id);
    } else if a.ReadFailed? && s.failed {
      assert s.writers == s.writers[id := s.writers[id]];
      OwnedOk(c, s, owner, id);
      SameHoldings(c, s, owner, id, s.writers[id], Effect(c, s, id, a));
    } else {
      TailOwnership(c, s, owner, id, Effect(c, s, id, a).writers[id].pc, Effect(c, s, id, a));
    }
  }

  lemma KeepsBlocksOwnership(c: Config, s: State, owner: map<nat, Owner>, id: nat, a: Action)
    requires Ownership(c, s, owner) && Enabled(c, s, id, a) && KeepsBlocks(a)
    ensures Ownership(c, Effect(c, s, id, a), owner)
  {
    hide LockPage, Ownership, Holds, In, Separate, WriterOk, Enabled, Effect;
    var s' := Effect(c, s, id, a);
    KeepsBlocksSame(c, s, id, a);
    OwnedOk(c, s, owner, id);
    SameBlock(c, s.writers[id], s'.writers[id]);
    SameHoldings(c, s, owner, id, s'.writers[id], s');
  }

  // ---------------------------------------------------------------- the gate

  predicate Counts(id: nat, pc: Pc) {
    id != COORDINATOR && !pc.Claimed? && !pc.Done? && !pc.Lost?
  }

  ghost function Active(writers: map<nat, Writer>): set<nat> {
    set id | id in writers && Counts(id, writers[id].pc)
  }

  ghost predicate Gate(s: State) {
    && COORDINATOR in s.writers
    && s.active == |Active(s.writers)|
    && (forall id | id in s.writers :: s.writers[id].pc.Abandoned? || s.writers[id].pc.Lost? ==> s.failed)
    && !Worker(s.writers[COORDINATOR].pc)
    && (s.phase.NoneActive? || s.phase.Passed? || s.phase.Finished? ==> Quiet(s))
    && (s.phase.Passed? || s.phase.Finished? ==> !s.failed)
  }

  /** Positions only a worker takes. */
  predicate Worker(pc: Pc) {
    pc.Claimed? || pc.Dropping? || pc.Abandoned? || pc.Lost?
  }

  /** No worker has a step left, and the coordinator does nothing but finish. */
  ghost predicate Quiet(s: State)
    requires COORDINATOR in s.writers
  {
    && (forall id | id in s.writers && id != COORDINATOR :: s.writers[id].pc.Done? || s.writers[id].pc.Lost?)
    && (s.phase.NoneActive? ==> s.writers[COORDINATOR].pc.Idle?)
    && (s.phase.Passed? ==> s.writers[COORDINATOR].pc.Closing?)
    && (s.phase.Finished? ==> s.writers[COORDINATOR].pc.Done?)
  }

  lemma ActiveAfter(writers: map<nat, Writer>, id: nat, w: Writer)
    ensures Counts(id, w.pc) ==> Active(writers[id := w]) == Active(writers) + {id}
    ensures !Counts(id, w.pc) ==> Active(writers[id := w]) == Active(writers) - {id}
    ensures |Active(writers[id := w])| == |Active(writers)|
              + (if Counts(id, w.pc) then 1 else 0) - (if id in writers && Counts(id, writers[id].pc) then 1 else 0)
  {
    var writers' := writers[id := w];
    if Counts(id, w.pc) {
      assert Active(writers') == Active(writers) + {id};
    } else {
      assert Active(writers') == Active(writers) - {id};
    }
  }

  lemma NoneIsActive(s: State)
    requires Gate(s) && s.active == 0 && forall id | id in s.writers :: !s.writers[id].pc.Claimed?
    ensures forall id | id in s.writers && id != COORDINATOR :: s.writers[id].pc.Done? || s.writers[id].pc.Lost?
  {
    assert Active(s.writers) == {};
    forall id | id in s.writers && id != COORDINATOR ensures !Counts(id, s.writers[id].pc) {
      assert id !in Active(s.writers);
    }
  }

  /** An exchange, whether it succeeds or not, changes its writer's block and position and the counter. */
  lemma SwapChanges(c: Config, s: State, id: nat)
    requires id in s.writers && s.writers[id].pc.Swapping?
    ensures var s' := Swapped(c, s, id);
            && id in s'.writers && s' == With(s, id, s'.writers[id]).(next := s'.next)
            && (s'.writers[id].pc.Idle? || s'.writers[id].pc.Failing? || s'.writers[id].pc.Swapping?)
            && s'.writers[id].roots == s.writers[id].roots
  {
    hide LockPage, RangeEnd;
  }

  /** What one step does to the gate's variables. */
  lemma StepCounts(c: Config, s: State, id: nat, a: Action)
    requires Gate(s) && Enabled(c, s, id, a)
    ensures var s' := Effect(c, s, id, a);
            && id in s'.writers && s'.writers == s.writers[id := s'.writers[id]]
            && s'.active == s.active + (if Counts(id, s'.writers[id].pc) then 1 else 0)
                                     - (if id in s.writers && Counts(id, s.writers[id].pc) then 1 else 0)
            && (s.failed ==> s'.failed)
  {
    hide Swapped, Spooled, UsableRanges, Active, Quiet, Skip;
    if id in s.writers {
      assert s.writers == s.writers[id := s.writers[id]];
      if a.Swap? {
        SwapChanges(c, s, id);
      } else if a.Spool? {
        SpoolChanges(s, id);
      }
    }
  }

  lemma SpoolChanges(s: State, id: nat)
    requires id in s.writers && Spooling(s.writers[id].pc)
    ensures var s' := Spooled(s, id);
            && id in s'.writers && s' == With(s, id, s'.writers[id]).(spool := s'.spool, freeCount := s'.freeCount)
            && s'.writers[id].roots == s.writers[id].roots
            && (s.writers[id].pc.Returning? ==> s'.writers[id].pc.Returning?)
            && (s.writers[id].pc.Closing? ==> s'.writers[id].pc.Closing?)
  {
  }

  lemma StepFlags(c: Config, s: State, id: nat, a: Action)
    requires Gate(s) && Enabled(c, s, id, a)
    ensures var s' := Effect(c, s, id, a);
            && id in s'.writers && (s'.writers[id].pc.Abandoned? || s'.writers[id].pc.Lost? ==> s'.failed)
            && (id == COORDINATOR ==> !Worker(s'.writers[id].pc))
  {
    hide Swapped, Spooled, UsableRanges, Active, Quiet, Skip;
    if a.Swap? {
      SwapChanges(c, s, id);
    } else if a.Spool? {
      SpoolChanges(s, id);
    }
  }

  lemma StepPhase(c: Config, s: State, id: nat, a: Action)
    requires Enabled(c, s, id, a) && !a.ReadActive? && !a.ReadFailed? && !a.Publish?
    ensures Effect(c, s, id, a).phase == s.phase
  {
    hide Skip, RangeEnd, LockPage, Available, UsableRanges;
  }

  lemma StepQuiet(c: Config, s: State, id: nat, a: Action)
    requires Gate(s) && Enabled(c, s, id, a)
    ensures var s' := Effect(c, s, id, a);
            && COORDINATOR in s'.writers
            && (s'.phase.NoneActive? || s'.phase.Passed? || s'.phase.Finished? ==> Quiet(s'))
            && (s'.phase.Passed? || s'.phase.Finished? ==> !s'.failed)
  {
    hide Effect, Enabled, Quiet, Active;
    if a.ReadActive? {
      CountRead(c, s, id);
    } else if s.phase.Running? || s.phase.Rejected? {
      StepCounts(c, s, id, a);
      KeepsPhase(c, s, id, a);
    } else if a.Spool? {
      SpoolIsQuiet(c, s, id);
    } else {
      QuietStep(c, s, id, a);
    }
  }

  lemma CountRead(c: Config, s: State, id: nat)
    requires Gate(s) && Enabled(c, s, id, ReadActive)
    ensures var s' := Effect(c, s, id, ReadActive);
            && s'.writers == s.writers && s'.failed == s.failed && (s'.phase.NoneActive? ==> Quiet(s'))
               && !s'.phase.Passed? && !s'.phase.Finished?
  {
    hide Active, Skip;
    if s.active == 0 {
      NoneIsActive(s);
    }
  }

  lemma SpoolIsQuiet(c: Config, s: State, id: nat)
    requires Gate(s) && Enabled(c, s, id, Spool) && !s.phase.Running? && !s.phase.Rejected?
    ensures var s' := Effect(c, s, id, Spool);
            COORDINATOR in s'.writers && Quiet(s') && s'.phase == s.phase && s'.failed == s.failed
  {
    hide Spooled, Active;
    SpoolChanges(s, id);
  }

  /** Once the count was read as zero, only the coordinator steps. */
  lemma QuietStep(c: Config, s: State, id: nat, a: Action)
    requires Gate(s) && Enabled(c, s, id, a) && !s.phase.Running? && !s.phase.Rejected? && !a.ReadActive? && !a.Spool?
    ensures var s' := Effect(c, s, id, a);
            && COORDINATOR in s'.writers && (!s'.phase.Rejected? ==> Quiet(s'))
            && (s'.phase.Passed? || s'.phase.Finished? ==> !s'.failed)
  {
    hide Swapped, Spooled, UsableRanges, Active, Skip, Available, RootIsFree;
  }

  lemma KeepsPhase(c: Config, s: State, id: nat, a: Action)
    requires Enabled(c, s, id, a) && !a.ReadActive? && (s.phase.Running? || s.phase.Rejected?)
    ensures Effect(c, s, id, a).phase == s.phase
  {
    hide Effect;
    StepPhase(c, s, id, a);
  }

  lemma StepGate(c: Config, s: State, id: nat, a: Action)
    requires Gate(s) && Enabled(c, s, id, a)
    ensures Gate(Effect(c, s, id, a))
  {
    hide Active, Enabled, Effect, Quiet;
    var s' := Effect(c, s, id, a);
    StepCounts(c, s, id, a);
    ActiveAfter(s.writers, id, s'.writers[id]);
    StepFlags(c, s, id, a);
    StepQuiet(c, s, id, a);
  }

  // ---------------------------------------------------------------- what reaches the file

  /** Everything a writer wrote is either still in its buffer or in the file, as it wrote it. */
  ghost predicate WriterStored(c: Config, w: Writer, disk: File) {
    && (forall p | p in w.written :: p in w.image)
    && (forall p | p in w.image :: p in w.written || p in w.roots)
    && (forall p | p in w.image && p !in w.buffer :: p in disk && disk[p] == w.image[p])
    && (forall p | p in w.buffer :: if p in w.image then w.buffer[p] == w.image[p]
                                    else p == c.Pending() && p >= c.bootstrapEnd)
    && (Retired(w.pc) ==> w.buffer == map[])
  }

  ghost predicate RootsOk(c: Config, s: State) {
    && (forall root | root in s.roots :: 1 < root < c.bootstrapEnd)
    && (forall id | id in s.writers :: s.writers[id].roots <= s.roots)
    && forall id, other | id in s.writers && other in s.writers
       && id != other :: s.writers[id].roots !! s.writers[other].roots
  }

  ghost predicate Stored(c: Config, s: State) {
    RootsOk(c, s) && forall id | id in s.writers :: WriterStored(c, s.writers[id], s.disk)
  }

  lemma WrittenOwner(c: Config, s: State, owner: map<nat, Owner>, id: nat, p: nat)
    requires Ownership(c, s, owner) && id in s.writers && p in s.writers[id].written
    ensures p in owner && owner[p] == Of(id) && p != c.Pending() && p >= c.bootstrapEnd
  {
    hide In, Separate, WriterOk, LockPage;
    assert Holds(c, s.writers[id], p);
  }

  /** One writer's buffer never covers what another wrote. */
  lemma BuffersAreSeparate(c: Config, s: State, owner: map<nat, Owner>, id: nat, other: nat, p: nat)
    requires Ownership(c, s, owner) && Stored(c, s) && id in s.writers && other in s.writers && id != other
    requires p in s.writers[id].buffer
    ensures p !in s.writers[other].image
  {
    hide Ownership, LockPage;
    var w, o := s.writers[id], s.writers[other];
    assert WriterStored(c, w, s.disk) && WriterStored(c, o, s.disk);
    if p in o.image {
      if p in o.written {
        WrittenOwner(c, s, owner, other, p);
      }
      if p in w.written {
        WrittenOwner(c, s, owner, id, p);
      }
      assert false;
    }
  }

  /** A step by one writer, possibly a flush of its own buffer, disturbs nobody else. */
  lemma OthersStayStored(c: Config, s: State, owner: map<nat, Owner>, id: nat, w: Writer, s': State)
    requires Ownership(c, s, owner) && Stored(c, s) && s'.writers == s.writers[id := w]
    requires s'.disk == s.disk || (id in s.writers && s'.disk == s.disk + s.writers[id].buffer)
    requires RootsOk(c, s') && WriterStored(c, w, s'.disk)
    ensures Stored(c, s')
  {
    hide Ownership, RootsOk, LockPage;
    assert forall other | other in s.writers :: WriterStored(c, s.writers[other], s.disk);
    forall other | other in s.writers && other != id ensures WriterStored(c, s.writers[other], s'.disk) {
      if s'.disk != s.disk {
        forall p | p in s.writers[id].buffer ensures p !in s.writers[other].image {
          BuffersAreSeparate(c, s, owner, id, other, p);
        }
      }
    }
  }

  function NewRoots(id: nat, a: Action): set<nat> {
    if a.Fork? then {id} else if a.Claim? then {a.root} else {}
  }

  /** Only a fork and a claim add a root, and only one nobody has. */
  lemma StepRoots(c: Config, s: State, id: nat, a: Action)
    requires Enabled(c, s, id, a)
    ensures var s' := Effect(c, s, id, a);
            var more := NewRoots(id, a);
            && (forall root | root in more :: RootIsFree(c, s, root))
            && id in s'.writers && s'.writers == s.writers[id := s'.writers[id]] && s'.roots == s.roots + more
            && s'.writers[id].roots == more + if id in s.writers then s.writers[id].roots else {}
  {
    hide Swapped, Spooled, UsableRanges;
    if id in s.writers {
      assert s.writers == s.writers[id := s.writers[id]];
      if a.Swap? {
        SwapChanges(c, s, id);
      } else if a.Spool? {
        SpoolChanges(s, id);
      }
    }
  }

  lemma RootsStayOk(c: Config, s: State, id: nat, a: Action)
    requires RootsOk(c, s) && Enabled(c, s, id, a)
    ensures RootsOk(c, Effect(c, s, id, a))
  {
    hide Enabled, Effect;
    StepRoots(c, s, id, a);
    var s' := Effect(c, s, id, a);
    var more := NewRoots(id, a);
    assert forall root | root in more :: RootIsFree(c, s, root);
    assert more !! s.roots;
    assert forall other | other in s.writers && other != id ::
           s'.writers[other] == s.writers[other] && s.writers[other].roots <= s.roots;
    assert id in s.writers ==> s.writers[id].roots <= s.roots;
  }

  lemma AppendStored(c: Config, s: State, owner: map<nat, Owner>, id: nat, page: seq<byte>)
    requires Ownership(c, s, owner) && Stored(c, s) && id in s.writers && CanWrite(s, id)
    requires Available(s.writers[id].next, s.writers[id].end, c.Pending()) >= 1
    ensures WriterStored(c, Appended(c, s.writers[id], page), s.disk)
  {
    hide LockPage, RootsOk, Ownership;
    var w := s.writers[id];
    assert WriterStored(c, w, s.disk);
    OwnedOk(c, s, owner, id);
    if c.Pending() in w.written {
      WrittenOwner(c, s, owner, id, c.Pending());
    }
    if w.next == c.Pending() && w.next in w.image {
      StoredRoots(c, s);
      OwnRoots(c, s, id, w.next);
    }
  }

  lemma OwnRoots(c: Config, s: State, id: nat, root: nat)
    requires RootsOk(c, s) && id in s.writers
    ensures root in s.writers[id].roots ==> 1 < root < c.bootstrapEnd
  {
  }

  /** With its buffer flushed, a writer has everything in the file. */
  lemma FlushStored(c: Config, w: Writer, disk: File, w': Writer)
    requires WriterStored(c, w, disk) && w'.written == w.written && w'.roots == w.roots && w'.image == w.image
             && w'.buffer == map[]
    ensures WriterStored(c, w', disk + w.buffer)
  {
    hide LockPage;
  }

  predicate KeepsStorage(a: Action) {
    !(a.Fork? || a.Append? || a.WriteRoot? || a.Flush? || a.Retire? || a.Close? || a.ReadFailed?)
  }

  lemma SameStored(c: Config, s: State, id: nat, a: Action)
    requires Enabled(c, s, id, a) && KeepsStorage(a)
    ensures id in s.writers
    ensures var s', w := Effect(c, s, id, a), s.writers[id];
            && id in s'.writers && s'.disk == s.disk
            && var w' := s'.writers[id];
            && w'.written == w.written && w'.image == w.image && w'.buffer == w.buffer && w.roots <= w'.roots
            && (Retired(w'.pc) ==> Retired(w.pc))
  {
    hide LockPage, RangeEnd, UsableRanges, Appended, Available;
  }

  predicate Flushes(s: State, a: Action) {
    a.Flush? || a.Retire? || a.Close? || (a.ReadFailed? && !s.failed)
  }

  lemma FlushEffect(c: Config, s: State, id: nat, a: Action)
    requires Enabled(c, s, id, a) && Flushes(s, a)
    ensures id in s.writers
    ensures var s', w := Effect(c, s, id, a), s.writers[id];
            && id in s'.writers && s'.disk == s.disk + w.buffer
            && var w' := s'.writers[id];
            && w'.written == w.written && w'.image == w.image && w'.buffer == map[] && w.roots == w'.roots
  {
    hide LockPage, RangeEnd, UsableRanges, Appended, Available;
  }

  lemma RootStored(c: Config, w: Writer, disk: File, root: nat, page: seq<byte>)
    requires WriterStored(c, w, disk) && root in w.roots && w.pc.Idle?
    ensures WriterStored(c, w.(image := w.image[root := page], buffer := w.buffer[root := page]), disk)
  {
    hide LockPage;
  }

  lemma StepWriterStored(c: Config, s: State, owner: map<nat, Owner>, id: nat, a: Action)
    requires Ownership(c, s, owner) && Stored(c, s) && Enabled(c, s, id, a)
    ensures var s' := Effect(c, s, id, a);
            && id in s'.writers
            && (s'.disk == s.disk || (id in s.writers && s'.disk == s.disk + s.writers[id].buffer))
            && WriterStored(c, s'.writers[id], s'.disk)
  {
    hide LockPage, RangeEnd, UsableRanges, Available, RootsOk, Ownership, Appended, Swapped, Spooled;
    assert id in s.writers ==> WriterStored(c, s.writers[id], s.disk);
    if KeepsStorage(a) {
      SameStored(c, s, id, a);
      hide Enabled, Effect;
    } else if Flushes(s, a) {
      FlushEffect(c, s, id, a);
      hide Enabled, Effect, WriterStored;
      FlushStored(c, s.writers[id], s.disk, Effect(c, s, id, a).writers[id]);
    } else if a.Append? {
      hide WriterStored;
      AppendStored(c, s, owner, id, a.page);
    } else if a.WriteRoot? {
      hide WriterStored;
      RootStored(c, s.writers[id], s.disk, a.root, a.page);
    }
  }

  lemma StepStored(c: Config, s: State, owner: map<nat, Owner>, id: nat, a: Action)
    requires Ownership(c, s, owner) && Stored(c, s) && Enabled(c, s, id, a)
    ensures Stored(c, Effect(c, s, id, a))
  {
    hide Ownership, Stored, Enabled, Effect, WriterStored, RootsOk;
    var s' := Effect(c, s, id, a);
    assert RootsOk(c, s) by {
      StoredRoots(c, s);
    }
    RootsStayOk(c, s, id, a);
    StepRoots(c, s, id, a);
    StepWriterStored(c, s, owner, id, a);
    OthersStayStored(c, s, owner, id, s'.writers[id], s');
  }

  lemma StoredRoots(c: Config, s: State)
    requires Stored(c, s)
    ensures RootsOk(c, s)
  {
  }

  // ---------------------------------------------------------------- whole runs

  lemma InitialState(c: Config, s: State) returns (owner: map<nat, Owner>)
    requires Initial(c, s)
    ensures Ownership(c, s, owner) && Gate(s) && Stored(c, s)
  {
    hide LockPage;
    owner := map[];
    NoRanges();
    assert Active(s.writers) == {};
  }

  lemma {:induction false} Reached(c: Config, states: seq<State>, ids: seq<nat>, actions: seq<Action>, i: nat)
    returns (owner: map<nat, Owner>)
    requires Run(c, states, ids, actions) && i < |states|
    ensures Ownership(c, states[i], owner) && Gate(states[i]) && Stored(c, states[i])
  {
    hide Ownership, Gate, Stored, Initial, Enabled, Effect;
    if i == 0 {
      owner := InitialState(c, states[0]);
    } else {
      var before := Reached(c, states, ids, actions, i - 1);
      assert Enabled(c, states[i - 1], ids[i - 1], actions[i - 1])
             && states[i] == Effect(c, states[i - 1], ids[i - 1], actions[i - 1]);
      owner := StepOwnership(c, states[i - 1], before, ids[i - 1], actions[i - 1]);
      StepGate(c, states[i - 1], ids[i - 1], actions[i - 1]);
      StepStored(c, states[i - 1], before, ids[i - 1], actions[i - 1]);
    }
  }

  /** A page handed out is the lock-byte page, or free, or held by exactly one writer. */
  ghost predicate OneUse(c: Config, s: State, p: nat) {
    if In(s.spool, p) || p == c.Pending() || !(c.bootstrapEnd <= p < s.next) then
      && (In(s.spool, p) ==> c.bootstrapEnd <= p < s.next && p != c.Pending())
      && forall id | id in s.writers :: !Holds(c, s.writers[id], p)
    else exists id :: id in s.writers && Holds(c, s.writers[id], p)
                      && forall other | other in s.writers && other != id :: !Holds(c, s.writers[other], p)
  }

  ghost predicate Partitioned(c: Config, s: State) {
    (forall p: nat :: OneUse(c, s, p)) && Separate(s.spool) && s.freeCount == Pages(s.spool)
  }

  lemma FreeFacts(c: Config, s: State, owner: map<nat, Owner>)
    requires Ownership(c, s, owner)
    ensures forall p: nat | In(s.spool, p) :: c.bootstrapEnd <= p < s.next && p != c.Pending()
    ensures Separate(s.spool) && s.freeCount == Pages(s.spool)
  {
    hide Holds, In, Separate, WriterOk, LockPage, Pages;
  }

  lemma OwnedIsUsedOnce(c: Config, s: State, owner: map<nat, Owner>, p: nat)
    requires Ownership(c, s, owner)
    ensures OneUse(c, s, p)
  {
    hide In, Separate, WriterOk, LockPage, Pages, Holds;
    if p in owner && owner[p].Of? {
      var id := owner[p].id;
      assert id in s.writers && Holds(c, s.writers[id], p);
      assert forall other | other in s.writers && other != id :: !Holds(c, s.writers[other], p);
    }
  }

  lemma OwnedIsPartitioned(c: Config, s: State, owner: map<nat, Owner>)
    requires Ownership(c, s, owner)
    ensures Partitioned(c, s)
  {
    hide Ownership, OneUse, Separate, Pages;
    FreeFacts(c, s, owner);
    forall p: nat ensures OneUse(c, s, p) {
      OwnedIsUsedOnce(c, s, owner, p);
    }
  }

  /** In every reachable state, whatever the interleaving. */
  lemma PagesStayPartitioned(c: Config, states: seq<State>, ids: seq<nat>, actions: seq<Action>)
    requires Run(c, states, ids, actions)
    ensures forall s | s in states :: Partitioned(c, s)
  {
    hide Ownership, Gate, Stored, Partitioned, Run;
    forall s | s in states ensures Partitioned(c, s) {
      var i :| 0 <= i < |states| && states[i] == s;
      var owner := Reached(c, states, ids, actions, i);
      OwnedIsPartitioned(c, s, owner);
    }
  }

  /** `finish` gets past its two checks only if every worker ever forked has completed. */
  lemma FinishNeedsEveryWorker(c: Config, states: seq<State>, ids: seq<nat>, actions: seq<Action>)
    requires Run(c, states, ids, actions)
    ensures forall s | s in states && (s.phase.Passed? || s.phase.Finished?) ::
              !s.failed && s.active == 0 && forall id | id in s.writers && id != COORDINATOR :: s.writers[id].pc.Done?
  {
    hide Ownership, Stored, Run;
    forall s | s in states && (s.phase.Passed? || s.phase.Finished?)
      ensures !s.failed && s.active == 0 && forall id | id in s.writers && id != COORDINATOR :: s.writers[id].pc.Done? {
      var i :| 0 <= i < |states| && states[i] == s;
      var owner := Reached(c, states, ids, actions, i);
      assert Gate(s);
      assert Active(s.writers) == {};
    }
  }

  /** The same, when all blocks are used up or given back. */
  ghost predicate WrittenOnce(c: Config, s: State, p: nat) {
    if In(s.spool, p) || p == c.Pending() || !(c.bootstrapEnd <= p < s.next) then
      && (In(s.spool, p) ==> c.bootstrapEnd <= p < s.next && p != c.Pending())
      && forall id | id in s.writers :: p !in s.writers[id].written
    else exists id :: id in s.writers && p in s.writers[id].written
                      && forall other | other in s.writers && other != id :: p !in s.writers[other].written
  }

  /** What `finish` publishes: no page is lost, none is used twice, and the file holds every page of
      every tree exactly as its writer wrote it. */
  ghost predicate Complete(c: Config, s: State) {
    && (forall p: nat :: WrittenOnce(c, s, p)) && Separate(s.spool) && s.freeCount == Pages(s.spool)
    && forall id, p | id in s.writers && p in s.writers[id].image :: p in s.disk && s.disk[p] == s.writers[id].image[p]
  }

  lemma DoneHoldsWritten(c: Config, w: Writer, p: nat)
    requires WriterOk(c, w) && w.pc.Done?
    ensures Holds(c, w, p) <==> p in w.written
  {
    NoRanges();
  }

  lemma HeldIsWritten(c: Config, s: State, owner: map<nat, Owner>, p: nat)
    requires Ownership(c, s, owner) && forall id | id in s.writers :: s.writers[id].pc.Done?
    ensures WrittenOnce(c, s, p)
  {
    hide Ownership, In, LockPage, WriterOk;
    OwnedIsUsedOnce(c, s, owner, p);
    forall id | id in s.writers ensures Holds(c, s.writers[id], p) <==> p in s.writers[id].written {
      OwnedOk(c, s, owner, id);
      DoneHoldsWritten(c, s.writers[id], p);
    }
    hide Holds;
  }

  lemma FinishedIsComplete(c: Config, s: State, owner: map<nat, Owner>)
    requires Ownership(c, s, owner) && Stored(c, s)
    requires forall id | id in s.writers :: s.writers[id].pc.Done?
    ensures Complete(c, s)
  {
    hide Ownership, Separate, Pages, Stored, WrittenOnce;
    FreeFacts(c, s, owner);
    forall p: nat ensures WrittenOnce(c, s, p) {
      HeldIsWritten(c, s, owner, p);
    }
    forall id, p | id in s.writers && p in s.writers[id].image ensures p in s.disk
        && s.disk[p] == s.writers[id].image[p] {
      DoneIsStored(c, s, id, p);
    }
  }

  lemma DoneIsStored(c: Config, s: State, id: nat, p: nat)
    requires Stored(c, s) && id in s.writers && s.writers[id].pc.Done? && p in s.writers[id].image
    ensures p in s.disk && s.disk[p] == s.writers[id].image[p]
  {
    assert WriterStored(c, s.writers[id], s.disk);
  }

  lemma FinishedRunIsComplete(c: Config, states: seq<State>, ids: seq<nat>, actions: seq<Action>)
    requires Run(c, states, ids, actions)
    ensures forall s | s in states && s.phase.Finished? :: Complete(c, s)
  {
    hide Ownership, Stored, Run, Complete;
    forall s | s in states && s.phase.Finished? ensures Complete(c, s) {
      var i :| 0 <= i < |states| && states[i] == s;
      var owner := Reached(c, states, ids, actions, i);
      assert Gate(s) && Quiet(s);
      FinishedIsComplete(c, s, owner);
    }
  }

  /** The order of the two reads matters: in this run the flag is still clear when it could be read
      first, and the count is zero when it could be read second, but the worker was lost. */
  lemma FlagBeforeCountIsNotEnough(c: Config, disk: File)
    returns (states: seq<State>, ids: seq<nat>, actions: seq<Action>, early: nat, late: nat)
    requires c.bootstrapEnd > 2
    ensures Run(c, states, ids, actions) && early < late < |states|
    ensures 2 in states[early].writers && !states[early].failed
    ensures states[late].active == 0 && 2 in states[late].writers && states[late].writers[2].pc.Lost?
  {
    hide LockPage, Enabled, Effect, LoneWorker;
    var coordinator := NewWriter(Idle, c.bootstrapEnd, {});
    var s0 := State(c.bootstrapEnd, 0, false, {}, [], 0, disk, map[COORDINATOR := coordinator], Running);
    var s1, s2, s3 := LoneWorker(s0, Claimed, 0, false), LoneWorker(s0, Idle, 1, false),
        LoneWorker(s0, Dropping, 1, false);
    var s4, s5 := LoneWorker(s0, Abandoned, 1, true), LoneWorker(s0, Lost, 0, true);
    LoneFork(c, s0);
    LoneStep(c, s0, Claimed, 0, false, Activate, Idle, 1, false);
    LoneStep(c, s0, Idle, 1, false, Drop, Dropping, 1, false);
    LoneStep(c, s0, Dropping, 1, false, StoreFailed, Abandoned, 1, true);
    LoneStep(c, s0, Abandoned, 1, true, Vanish, Lost, 0, true);
    states, ids, actions := [s0, s1, s2, s3, s4, s5], [2, 2, 2, 2, 2], [Fork, Activate, Drop, StoreFailed, Vanish];
    early, late := 2, 5;
    LoneState(s0, Idle, 1, false);
    LoneState(s0, Lost, 0, true);
  }

  lemma LoneState(s: State, pc: Pc, active: int, failed: bool)
    ensures var s' := LoneWorker(s, pc, active, failed);
            2 in s'.writers && s'.writers[2].pc == pc && s'.active == active && s'.failed == failed
  {
  }

  lemma LoneFork(c: Config, s: State)
    requires Initial(c, s) && c.bootstrapEnd > 2
    ensures Enabled(c, s, 2, Fork) && Effect(c, s, 2, Fork) == LoneWorker(s, Claimed, 0, false)
  {
  }

  lemma LoneStep(c: Config, s: State, pc: Pc, active: int, failed: bool, a: Action, pc': Pc, active': int,
                 failed': bool)
    requires s.phase.Running?
    requires (pc, active, failed, a, pc', active', failed') in {
               (Claimed, 0, false, Activate, Idle, 1, false), (Idle, 1, false, Drop, Dropping, 1, false),
               (Dropping, 1, false, StoreFailed, Abandoned, 1, true), (Abandoned, 1, true, Vanish, Lost, 0, true)}
    ensures Enabled(c, LoneWorker(s, pc, active, failed), 2, a)
    ensures Effect(c, LoneWorker(s, pc, active, failed), 2, a) == LoneWorker(s, pc', active', failed')
  {
    var before := LoneWorker(s, pc, active, failed);
    assert s.writers[2 := before.writers[2]][2 := NewWriter(pc', 0, {2})] == s.writers[2 := NewWriter(pc', 0, {2})];
  }

  function LoneWorker(s: State, pc: Pc, active: int, failed: bool): State {
    With(s, 2, NewWriter(pc, 0, {2})).(roots := {2}, active := active, failed := failed)
  }
}
