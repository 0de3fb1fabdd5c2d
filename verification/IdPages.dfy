/** Pages of the integer-ID map: 4096 slots, their membership bitmap with prefix ranks, and their
    nodes in one of three encodings (`Page` in `id_map.rs`). */
module IdPages {
  import opened Bytes
  import opened Results

  datatype Node = Node(id: i64, labelGroup: i64)

  const WORDS: nat := 64
  const SLOTS: nat := 4096

  // Sizes in bytes.
  const DENSE_BYTES: nat := 640
  const OCCUPIED_BYTES: nat := 10

  /** A machine word as its bits, lowest first. */
  type Word = s: seq<bool> | |s| == 64 witness seq(64, _ => false)
  type Bitmap = s: seq<Word> | |s| == WORDS witness seq(WORDS, _ => seq(64, _ => false))
  type Ranks = s: seq<nat> | |s| == WORDS witness seq(WORDS, _ => 0)
  type Slot = n: nat | n < SLOTS

  datatype OccupiedWord = OccupiedWord(bitmap: Word, rank: nat)

  datatype Membership =
    | Dense(bitmap: Bitmap, ranks: Ranks)
    | Sparse(mask: Word, words: seq<OccupiedWord>)

  datatype Values = Building | Compact(ids: seq<u32>) | Packed(pairs: seq<u64>) | Wide(nodes: seq<Node>)

  datatype Page = Page(
    membership: Membership, count: nat, singleLabel: Option<i64>, compact: bool, packed: bool, values: Values)

  predicate NoBits(word: Word) {
    forall i | 0 <= i < 64 :: !word[i]
  }

  const EMPTY_PAGE: Page :=
    Page(Dense(seq(WORDS, _ => seq(64, _ => false)), seq(WORDS, _ => 0)), 0, None, true, true, Building)

  // ---------------------------------------------------------------- counting bits

  function Ones(bits: seq<bool>): (n: nat)
    ensures n <= |bits|
  {
    if bits == [] then 0 else Ones(bits[..|bits| - 1]) + if bits[|bits| - 1] then 1 else 0
  }

  predicate IsSet(bitmap: Bitmap, slot: Slot) {
    bitmap[slot / 64][slot % 64]
  }

  /** Set slots below `slot`. */
  ghost function Before(bitmap: Bitmap, slot: nat): nat
    requires slot <= SLOTS
  {
    if slot == 0 then 0 else Before(bitmap, slot - 1) + if IsSet(bitmap, slot - 1) then 1 else 0
  }

  lemma {:induction false} BeforeInWord(bitmap: Bitmap, w: nat, b: nat)
    requires w < WORDS && b <= 64
    ensures Before(bitmap, 64 * w + b) == Before(bitmap, 64 * w) + Ones(bitmap[w][..b])
  {
    if b > 0 {
      BeforeInWord(bitmap, w, b - 1);
      assert bitmap[w][..b][..b - 1] == bitmap[w][..b - 1];
      assert (64 * w + b - 1) / 64 == w && (64 * w + b - 1) % 64 == b - 1;
    }
  }

  lemma {:induction false} BeforeGrows(bitmap: Bitmap, low: nat, high: nat)
    requires low <= high <= SLOTS
    ensures Before(bitmap, low) <= Before(bitmap, high)
    ensures low < high && IsSet(bitmap, low) ==> Before(bitmap, low) < Before(bitmap, high)
    decreases high
  {
    if low < high {
      BeforeGrows(bitmap, low, high - 1);
    }
  }

  // ---------------------------------------------------------------- rank

  function Has(page: Page, slot: Slot): bool {
    Rank(page, slot).Some?
  }

  /** The position of a slot among the occupied ones. */
  function Rank(page: Page, slot: Slot): Option<nat> {
    var w, b := slot / 64, slot % 64;
    match page.membership
    case Dense(bitmap, ranks) =>
      if bitmap[w][b] then Some(ranks[w] + Ones(bitmap[w][..b])) else None
    case Sparse(mask, words) =>
      if !mask[w] then None
      else
        var index := Ones(mask[..w]);
        if index >= |words| then None
        else if words[index].bitmap[b] then Some(words[index].rank + Ones(words[index].bitmap[..b])) else None
  }

  /** Occupied slots have distinct positions below `count`. */
  ghost predicate Ranked(page: Page) {
    && (forall slot: Slot | Has(page, slot) :: Rank(page, slot).value < page.count)
    && forall low: Slot, high: Slot | low < high && Has(page, low) && Has(page, high) ::
         Rank(page, low).value < Rank(page, high).value
  }

  // ---------------------------------------------------------------- building a page

  predicate InU32(n: int) {
    0 <= n < U32
  }

  /** The node can be stored in the encoding these flags select. */
  predicate Fits(page: Page, node: Node) {
    && (page.singleLabel.Some? ==> node.labelGroup == page.singleLabel.value)
    && (page.compact ==> InU32(node.id))
    && (page.packed ==> InU32(node.id) && InU32(node.labelGroup))
  }

  /** The page under construction holds exactly the slots of `nodes`. */
  ghost predicate Collects(page: Page, nodes: map<Slot, Node>) {
    && page.membership.Dense? && page.values.Building?
    && (forall slot: Slot :: IsSet(page.membership.bitmap, slot) <==> slot in nodes)
    && page.count == Before(page.membership.bitmap, SLOTS)
    && (forall slot: Slot | slot in nodes :: Fits(page, nodes[slot]))
    && (nodes == map[] ==> page.count == 0)
  }

  lemma EmptyCollects()
    ensures Collects(EMPTY_PAGE, map[])
  {
    assert forall w, b | 0 <= w < WORDS && 0 <= b < 64 :: !EMPTY_PAGE.membership.bitmap[w][b];
    NothingBefore(EMPTY_PAGE.membership.bitmap, SLOTS);
  }

  lemma {:induction false} NothingBefore(bitmap: Bitmap, slot: nat)
    requires slot <= SLOTS && forall s: Slot | s < slot :: !IsSet(bitmap, s)
    ensures Before(bitmap, slot) == 0
  {
    if slot > 0 {
      NothingBefore(bitmap, slot - 1);
    }
  }

  function SetBit(bitmap: Bitmap, slot: Slot): Bitmap {
    bitmap[slot / 64 := bitmap[slot / 64][slot % 64 := true]]
  }

  lemma SetBitSets(bitmap: Bitmap, slot: Slot, other: Slot)
    ensures IsSet(SetBit(bitmap, slot), other) <==> other == slot || IsSet(bitmap, other)
  {
    if other / 64 == slot / 64 && other % 64 == slot % 64 {
      assert other == slot;
    }
  }

  lemma {:induction false} SetBitBefore(bitmap: Bitmap, slot: Slot, end: nat)
    requires !IsSet(bitmap, slot) && end <= SLOTS
    ensures Before(SetBit(bitmap, slot), end) == Before(bitmap, end) + if slot < end then 1 else 0
  {
    if end > 0 {
      SetBitBefore(bitmap, slot, end - 1);
      SetBitSets(bitmap, slot, end - 1);
    }
  }

  method Insert(page: Page, slot: Slot, node: Node, ghost nodes: map<Slot, Node>) returns (page': Page, inserted: bool)
    requires Collects(page, nodes)
    ensures inserted <==> slot !in nodes
    ensures Collects(page', if inserted then nodes[slot := node] else nodes)
    ensures !inserted ==> page' == page
  {
    var bitmap := page.membership.bitmap;
    if bitmap[slot / 64][slot % 64] {
      return page, false;
    }
    var single := if page.count == 0 then Some(node.labelGroup)
                  else if page.singleLabel != Some(node.labelGroup) then None else page.singleLabel;
    page' := page.(
      membership := Dense(SetBit(bitmap, slot), page.membership.ranks),
      singleLabel := single, count := page.count + 1,
      compact := page.compact && InU32(node.id),
      packed := page.packed && InU32(node.id) && InU32(node.labelGroup));
    inserted := true;
    SetBitBefore(bitmap, slot, SLOTS);
    forall other: Slot ensures IsSet(page'.membership.bitmap, other) <==> other == slot || IsSet(bitmap, other) {
      SetBitSets(bitmap, slot, other);
    }
    forall other: Slot | other in nodes ensures page.count > 0 {
      assert IsSet(bitmap, other);
      BeforeGrows(bitmap, other, SLOTS);
    }
  }

  // ---------------------------------------------------------------- sealing a page

  function SaturatingSub(a: nat, b: nat): nat {
    if a >= b then a - b else 0
  }

  /** Memory a page's membership and values take, besides the page itself. */
  function PageBytes(page: Page): nat {
    (match page.membership
     case Dense(_, _) => DENSE_BYTES
     case Sparse(_, words) => |words| * OCCUPIED_BYTES)
    + ValueBytes(page.values)
  }

  function ValueBytes(values: Values): nat {
    match values
    case Building => 0
    case Compact(ids) => 4 * |ids|
    case Packed(pairs) => 8 * |pairs|
    case Wide(nodes) => 16 * |nodes|
  }

  /** The bytes the values will need once the page is sealed. */
  function NeededBytes(page: Page): nat {
    page.count * if page.compact && page.singleLabel.Some? then 4 else if page.packed then 8 else 16
  }

  predicate MaskOf(mask: Word, bitmap: Bitmap, upTo: nat) {
    forall w | 0 <= w < WORDS :: mask[w] <==> w < upTo && !NoBits(bitmap[w])
  }

  ghost predicate RankedUpTo(ranks: Ranks, bitmap: Bitmap, upTo: nat) {
    forall w | 0 <= w < upTo && w < WORDS :: ranks[w] == Before(bitmap, 64 * w)
  }

  /** Prefix ranks and the mask of occupied words. */
  method RankWords(bitmap: Bitmap, old': Ranks) returns (ranks: Ranks, mask: Word)
    ensures RankedUpTo(ranks, bitmap, WORDS) && MaskOf(mask, bitmap, WORDS)
  {
    ranks, mask := old', seq(64, _ => false);
    var rank := 0;
    for index := 0 to WORDS
      invariant rank == Before(bitmap, 64 * index)
      invariant RankedUpTo(ranks, bitmap, index) && MaskOf(mask, bitmap, index)
    {
      ranks := ranks[index := rank];
      BeforeInWord(bitmap, index, 64);
      assert bitmap[index][..64] == bitmap[index];
      rank := rank + Ones(bitmap[index]);
      if !NoBits(bitmap[index]) {
        mask := mask[index := true];
      }
    }
  }

  predicate WordsOf(words: seq<OccupiedWord>, mask: Word, bitmap: Bitmap, ranks: Ranks, upTo: nat)
    requires upTo <= WORDS
  {
    && |words| == Ones(mask[..upTo])
    && forall w | 0 <= w < upTo && mask[w] ::
         Ones(mask[..w]) < |words| && words[Ones(mask[..w])] == OccupiedWord(bitmap[w], ranks[w])
  }

  /** The occupied words in order. */
  method CollectWords(bitmap: Bitmap, ranks: Ranks, mask: Word) returns (words: seq<OccupiedWord>)
    requires MaskOf(mask, bitmap, WORDS)
    ensures WordsOf(words, mask, bitmap, ranks, WORDS)
  {
    words := [];
    for index := 0 to WORDS
      invariant WordsOf(words, mask, bitmap, ranks, index)
    {
      assert mask[..index + 1][..index] == mask[..index];
      if !NoBits(bitmap[index]) {
        words := words + [OccupiedWord(bitmap[index], ranks[index])];
      }
    }
  }

  /** Ranks count the set slots below. */
  ghost predicate RanksCount(page: Page, bitmap: Bitmap) {
    forall slot: Slot :: Rank(page, slot) == if IsSet(bitmap, slot) then Some(Before(bitmap, slot)) else None
  }

  lemma DenseRanks(page: Page, ranks: Ranks)
    requires page.membership.Dense? && RankedUpTo(ranks, page.membership.bitmap, WORDS)
    ensures RanksCount(page.(membership := Dense(page.membership.bitmap, ranks)), page.membership.bitmap)
  {
    var bitmap := page.membership.bitmap;
    var page' := page.(membership := Dense(bitmap, ranks));
    forall slot: Slot ensures Rank(page', slot) == if IsSet(bitmap, slot) then Some(Before(bitmap, slot)) else None {
      BeforeInWord(bitmap, slot / 64, slot % 64);
    }
  }

  lemma SparseRank(page: Page, bitmap: Bitmap, ranks: Ranks, mask: Word, words: seq<OccupiedWord>, slot: Slot)
    requires RankedUpTo(ranks, bitmap, WORDS) && MaskOf(mask, bitmap, WORDS)
             && WordsOf(words, mask, bitmap, ranks, WORDS)
    ensures Rank(page.(membership := Sparse(mask, words)), slot) == if IsSet(bitmap, slot) then
            Some(Before(bitmap, slot)) else None
  {
    hide Before, Ones, NoBits;
    var w, b := slot / 64, slot % 64;
    assert mask[w] <==> !NoBits(bitmap[w]);
    NoBitIsSet(bitmap[w], b);
    BeforeInWord(bitmap, w, b);
  }

  lemma NoBitIsSet(word: Word, b: nat)
    requires b < 64
    ensures NoBits(word) ==> !word[b]
  {
  }

  lemma SparseRanks(page: Page, bitmap: Bitmap, ranks: Ranks, mask: Word, words: seq<OccupiedWord>)
    requires RankedUpTo(ranks, bitmap, WORDS) && MaskOf(mask, bitmap, WORDS)
             && WordsOf(words, mask, bitmap, ranks, WORDS)
    ensures RanksCount(page.(membership := Sparse(mask, words)), bitmap)
  {
    hide RankedUpTo, MaskOf, WordsOf, Rank, Before, IsSet;
    forall slot: Slot
      ensures Rank(page.(membership := Sparse(mask, words)), slot) == if IsSet(bitmap, slot) then
              Some(Before(bitmap, slot)) else None {
      SparseRank(page, bitmap, ranks, mask, words, slot);
    }
  }

  lemma CountedIsRanked(page: Page, bitmap: Bitmap)
    requires RanksCount(page, bitmap) && page.count == Before(bitmap, SLOTS)
    ensures Ranked(page) && forall slot: Slot :: Has(page, slot) <==> IsSet(bitmap, slot)
  {
    hide Rank, Before, IsSet;
    forall slot: Slot | Has(page, slot) ensures Rank(page, slot).value < page.count {
      BeforeGrows(bitmap, slot, SLOTS);
    }
    forall low: Slot, high: Slot | low < high && Has(page, low) && Has(page, high)
      ensures Rank(page, low).value < Rank(page, high).value {
      BeforeGrows(bitmap, low, high);
    }
  }

  /** A sealed page: `done` are the slots whose node is stored already. */
  ghost predicate Answers(page: Page, nodes: map<Slot, Node>, done: set<Slot>) {
    && Ranked(page) && StoresAll(page)
    && (forall slot: Slot :: Has(page, slot) <==> slot in nodes)
    && (forall slot: Slot | slot in nodes :: Fits(page, nodes[slot]))
    && forall slot: Slot | slot in done && slot in nodes :: Lookup(page, slot) == Some(nodes[slot])
  }

  /** One value per occupied slot, in an encoding that loses nothing. */
  predicate StoresAll(page: Page) {
    match page.values
    case Building => false
    case Compact(ids) => |ids| == page.count && page.compact && page.singleLabel.Some?
    case Packed(pairs) => |pairs| == page.count && page.packed
    case Wide(nodes) => |nodes| == page.count
  }

  function Lookup(page: Page, slot: Slot): Option<Node>
  {
    var rank := Rank(page, slot);
    if rank.None? then None
    else
      match page.values
      case Building => None
      case Compact(ids) =>
        if rank.value < |ids| && page.singleLabel.Some? then Some(Node(ids[rank.value], page.singleLabel.value))
            else None
      case Packed(pairs) =>
        if rank.value < |pairs| then Some(Node(pairs[rank.value] % U32, pairs[rank.value] / U32)) else None
      case Wide(nodes) => if rank.value < |nodes| then Some(nodes[rank.value]) else None
  }

  /** Fixes the ranks, drops empty words when asked to, and allocates the values if the budget allows. */
  method Seal(page: Page, used: nat, limit: nat, compress: bool, ghost nodes: map<Slot, Node>)
    returns (page': Page, used': nat, ok: bool)
    requires Collects(page, nodes) && PageBytes(page) <= used <= limit
    ensures ok ==> Answers(page', nodes, {})
    ensures used' + PageBytes(page) == used + PageBytes(page') && used' <= limit
    ensures !compress ==> (ok <==> used + NeededBytes(page) <= limit)
    ensures !ok ==> used' + NeededBytes(page) > limit
    ensures !compress && ok ==> used' == used + NeededBytes(page)
  {
    hide Rank, Before, IsSet, Ones;
    var bitmap := page.membership.bitmap;
    var ranks, mask := RankWords(bitmap, page.membership.ranks);
    page', used' := page.(membership := Dense(bitmap, ranks)), used;
    DenseRanks(page, ranks);
    var occupied := Ones(mask);
    if compress && occupied < WORDS {
      var words := CollectWords(bitmap, ranks, mask);
      assert mask[..WORDS] == mask;
      SparseRanks(page, bitmap, ranks, mask, words);
      var freed := DENSE_BYTES - |words| * OCCUPIED_BYTES;
      page' := page.(membership := Sparse(mask, words));
      used' := SaturatingSub(used, freed);
    }
    CountedIsRanked(page', bitmap);
    var bytes := NeededBytes(page');
    if used' + bytes > limit {
      return page', used', false;
    }
    used' := used' + bytes;
    var values :=
      if page.compact && page.singleLabel.Some? then Compact(seq(page.count, _ => 0))
      else if page.packed then Packed(seq(page.count, _ => 0))
      else Wide(seq(page.count, _ => Node(0, 0)));
    SameRanks(page', page'.(values := values));
    page' := page'.(values := values);
    ok := true;
  }

  lemma SameRanks(page: Page, page': Page)
    requires page'.membership == page.membership
    ensures forall slot: Slot :: Rank(page', slot) == Rank(page, slot)
  {
  }

  /** Stores the node of an occupied slot. */
  method Set(page: Page, slot: Slot, node: Node, ghost nodes: map<Slot, Node>, ghost done: set<Slot>)
      returns (r: Result<Page>)
    requires Answers(page, nodes, done) && (slot in nodes ==> node == nodes[slot])
    ensures r.Ok? <==> slot in nodes
    ensures r.Ok? ==> Answers(r.value, nodes, done + {slot}) && PageBytes(r.value) == PageBytes(page)
  {
    hide Rank;
    var rank := Rank(page, slot);
    if rank.None? {
      return Err("integer-ID spool referenced an undeclared slot");
    }
    assert Fits(page, node);
    var at := rank.value;
    var values :=
      match page.values
      case Building => Building
      case Compact(ids) => Compact(ids[at := node.id % U32])
      case Packed(pairs) => Packed(pairs[at := node.id + node.labelGroup * U32])
      case Wide(nodes') => Wide(nodes'[at := node]);
    var page' := page.(values := values);
    SameRanks(page, page');
    return Ok(page');
  }
}
