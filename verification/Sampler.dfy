/** The accumulator itself: `IndexStatistics` in `index_stats.rs`. */
module Sampler {
  import opened Runs
  import opened Results

  const MAX_COLUMNS: nat := 8
  const SAMPLE_COUNT: nat := 24
  const U64_MAX: nat := 0xFFFF_FFFF_FFFF_FFFF

  /** A fixed-size counter array. */
  type Counts = s: seq<nat> | |s| == MAX_COLUMNS witness seq(MAX_COLUMNS, _ => 0)
  type Column = c: nat | c < MAX_COLUMNS

  datatype Sample = Sample(
    equal: Counts, less: Counts, distinctLess: Counts,
    witnessId: nat, periodic: bool, column: Column, hash: nat)

  datatype IndexSample = IndexSample(witnessId: nat, equal: seq<nat>, less: seq<nat>, distinctLess: seq<nat>)

  datatype FullIndexStatistics = FullIndexStatistics(stat1: seq<nat>, samples: seq<IndexSample>)

  const ZERO_SAMPLE: Sample :=
    Sample(seq(MAX_COLUMNS, _ => 0), seq(MAX_COLUMNS, _ => 0), seq(MAX_COLUMNS, _ => 0), 0, false, 0, 0)

  // ---------------------------------------------------------------- sample order

  /** Compares `equal` field by field from `from`, then the hashes. */
  predicate BetterFrom(new': Sample, old': Sample, from: nat, columns: nat)
    requires columns <= MAX_COLUMNS
    decreases columns - from
  {
    if from >= columns then new'.hash > old'.hash
    else if new'.equal[from] != old'.equal[from] then new'.equal[from] > old'.equal[from]
    else BetterFrom(new', old', from + 1, columns)
  }

  predicate BetterAfter(new': Sample, old': Sample, columns: nat)
    requires columns <= MAX_COLUMNS
  {
    BetterFrom(new', old', new'.column + 1, columns)
  }

  predicate Better(new': Sample, old': Sample, columns: nat)
    requires columns <= MAX_COLUMNS
  {
    var newEqual := new'.equal[new'.column];
    var oldEqual := old'.equal[old'.column];
    || newEqual > oldEqual
    || (newEqual == oldEqual &&
        (new'.column < old'.column || (new'.column == old'.column && BetterAfter(new', old', columns))))
  }

  lemma {:induction false} BetterFromTransitive(a: Sample, b: Sample, c: Sample, from: nat, columns: nat)
    requires columns <= MAX_COLUMNS
    requires BetterFrom(a, b, from, columns) && BetterFrom(b, c, from, columns)
    ensures BetterFrom(a, c, from, columns)
    decreases columns - from
  {
    if from < columns && a.equal[from] == b.equal[from] == c.equal[from] {
      BetterFromTransitive(a, b, c, from + 1, columns);
    }
  }

  lemma BetterTransitive(a: Sample, b: Sample, c: Sample, columns: nat)
    requires columns <= MAX_COLUMNS
    requires Better(a, b, columns) && Better(b, c, columns)
    ensures Better(a, c, columns)
  {
    if a.column == b.column == c.column && a.equal[a.column] == b.equal[b.column] == c.equal[c.column] {
      BetterFromTransitive(a, b, c, a.column + 1, columns);
    }
  }

  lemma {:induction false} BetterFromIrreflexive(s: Sample, from: nat, columns: nat)
    requires columns <= MAX_COLUMNS
    ensures !BetterFrom(s, s, from, columns)
    decreases columns - from
  {
    if from < columns {
      BetterFromIrreflexive(s, from + 1, columns);
    }
  }

  lemma BetterIrreflexive(s: Sample, columns: nat)
    requires columns <= MAX_COLUMNS
    ensures !Better(s, s, columns)
  {
    BetterFromIrreflexive(s, s.column + 1, columns);
  }

  /** The first count in which they differ, of those from `from` on, is larger in `a`. */
  ghost predicate FirstIsLarger(a: Sample, b: Sample, from: nat, columns: nat)
    requires columns <= MAX_COLUMNS
  {
    exists c | from <= c < columns :: a.equal[c] > b.equal[c] && SameCounts(a, b, from, c)
  }

  predicate SameCounts(a: Sample, b: Sample, from: nat, to: nat)
    requires to <= MAX_COLUMNS
  {
    forall c | from <= c < to :: a.equal[c] == b.equal[c]
  }

  lemma {:induction false} FirstDecides(a: Sample, b: Sample, from: nat, columns: nat)
    requires from <= columns <= MAX_COLUMNS
    ensures BetterFrom(a, b, from, columns)
       <==> FirstIsLarger(a, b, from, columns) || (SameCounts(a, b, from, columns) && a.hash > b.hash)
    decreases columns - from
  {
    if from < columns && a.equal[from] == b.equal[from] {
      FirstDecides(a, b, from + 1, columns);
      if FirstIsLarger(a, b, from + 1, columns) {
        var c :| from + 1 <= c < columns && a.equal[c] > b.equal[c] && SameCounts(a, b, from + 1, c);
        assert SameCounts(a, b, from, c);
      }
      if FirstIsLarger(a, b, from, columns) {
        var c :| from <= c < columns && a.equal[c] > b.equal[c] && SameCounts(a, b, from, c);
        assert SameCounts(a, b, from + 1, c);
      }
    } else if from < columns {
      assert SameCounts(a, b, from, from);
      if FirstIsLarger(a, b, from, columns) {
        var c :| from <= c < columns && a.equal[c] > b.equal[c] && SameCounts(a, b, from, c);
        assert c == from;
      }
    }
  }

  /** The longer run decides, then the shorter prefix, then the first longer prefix with different counts, and the
      hashes only if all of these are alike. */
  lemma BetterMeans(a: Sample, b: Sample, columns: nat)
    requires a.column < columns <= MAX_COLUMNS
    ensures var m, n := a.equal[a.column], b.equal[b.column];
            Better(a, b, columns)
            <==> || m > n
                 || (m == n && a.column < b.column)
                 || (m == n && a.column == b.column && FirstIsLarger(a, b, a.column + 1, columns))
                 || (m == n && a.column == b.column && SameCounts(a, b, a.column + 1, columns) && a.hash > b.hash)
  {
    FirstDecides(a, b, a.column + 1, columns);
  }

  // ---------------------------------------------------------------- what a sample means

  /** The last field is unique, so the rows before a sample count its own position. */
  function Row(s: Sample, columns: nat): nat
    requires 1 <= columns <= MAX_COLUMNS
  {
    s.less[columns - 1]
  }

  /** The counts of everything before the sampled row are final from the start. */
  ghost predicate BeforeExact(ch: seq<nat>, wit: seq<nat>, s: Sample, columns: nat) {
    && 1 <= columns <= MAX_COLUMNS && |wit| == |ch|
    && var r := Row(s, columns);
    && r < |ch| && s.witnessId == wit[r]
    && forall c | 0 <= c < columns :: s.less[c] == RunStart(ch, r, c) && s.distinctLess[c] == RunsBefore(ch, r, c)
  }

  /** Field `c` counts the rows of the run seen so far, up to and including the sampled row. */
  ghost predicate PartialAt(ch: seq<nat>, s: Sample, columns: nat, c: nat)
    requires 1 <= columns <= MAX_COLUMNS && c < columns && Row(s, columns) < |ch|
  {
    s.equal[c] == Row(s, columns) + 1 - RunStart(ch, Row(s, columns), c)
  }

  /** The accumulator for the newest row. */
  ghost predicate CurrentOk(ch: seq<nat>, wit: seq<nat>, s: Sample, columns: nat) {
    && BeforeExact(ch, wit, s, columns) && !s.periodic
    && Row(s, columns) == |ch| - 1
    && forall c | 0 <= c < columns :: PartialAt(ch, s, columns, c)
  }

  /** The best row so far of the run that is still open at field `c`: it is the last row of
      its own run at every longer prefix, which is what makes its counts final. */
  ghost predicate BestOk(ch: seq<nat>, wit: seq<nat>, s: Sample, columns: nat, c: nat) {
    && BeforeExact(ch, wit, s, columns) && !s.periodic && s.column == c && c + 1 < columns
    && var r := Row(s, columns);
    && RunEnd(ch, r, c) == |ch|
    && (forall k | c < k < columns :: PartialAt(ch, s, columns, k))
    && (r + 1 < |ch| ==> ch[r + 1] <= c + 1)
  }

  /** A stored sample: a zero marks a run that is still open, anything else is the exact run
      length.  Open runs at fields below `bound` are all marked. */
  ghost predicate StoredOk(ch: seq<nat>, wit: seq<nat>, s: Sample, columns: nat, bound: nat) {
    && BeforeExact(ch, wit, s, columns)
    && s.equal[columns - 1] == 1
    && (!s.periodic ==> s.column + 1 < columns)
    && var r := Row(s, columns);
    && forall c | 0 <= c < columns - 1 ::
         if s.equal[c] == 0 then RunEnd(ch, r, c) == |ch|
         else s.equal[c] == RunLength(ch, r, c) && (c < bound ==> RunEnd(ch, r, c) < |ch|)
  }

  ghost predicate AllStored(ch: seq<nat>, wit: seq<nat>, samples: seq<Sample>, columns: nat, bound: nat) {
    forall i | 0 <= i < |samples| :: StoredOk(ch, wit, samples[i], columns, bound)
  }

  /** No zeros at or beyond `limit`. */
  ghost predicate NoZerosFrom(samples: seq<Sample>, columns: nat, limit: nat)
    requires columns <= MAX_COLUMNS
  {
    forall i, c | 0 <= i < |samples| && limit <= c < columns :: samples[i].equal[c] != 0
  }

  ghost predicate Increasing(samples: seq<Sample>, columns: nat)
    requires 1 <= columns <= MAX_COLUMNS
  {
    forall i, j | 0 <= i < j < |samples| :: Row(samples[i], columns) < Row(samples[j], columns)
  }

  // ---------------------------------------------------------------- the periodic schedule

  /** Rows of the periodic samples, in order. */
  ghost function PeriodicRows(samples: seq<Sample>, columns: nat): seq<nat>
    requires 1 <= columns <= MAX_COLUMNS
  {
    if samples == [] then [] else
      var s := samples[|samples| - 1];
      PeriodicRows(samples[..|samples| - 1], columns) + if s.periodic then [Row(s, columns)] else []
  }

  /** The first `k` rows picked by the schedule: every `interval`-th row of the stream. */
  ghost function Scheduled(k: nat, interval: nat): (rows: seq<int>)
    ensures |rows| == k
  {
    seq(k, i => ScheduledRow(i + 1, interval))
  }

  lemma PeriodEnds(k: nat, interval: nat)
    ensures (k + 1) * interval == k * interval + interval && (k + 2) * interval == k * interval + 2 * interval
  {
  }

  lemma NextScheduled(k: nat, interval: nat)
    ensures Scheduled(k + 1, interval) == Scheduled(k, interval) + [ScheduledRow(k + 1, interval)]
  {
  }

  /** The last row of the `k`-th full interval. */
  ghost function ScheduledRow(k: int, interval: nat): int {
    k * interval - 1
  }

  ghost predicate SameOutline(a: Sample, b: Sample) {
    a.less == b.less && a.periodic == b.periodic
  }

  /** Changing only counts and columns keeps the periodic rows. */
  lemma {:induction false} OutlineKeepsPeriodic(a: seq<Sample>, b: seq<Sample>, columns: nat)
    requires 1 <= columns <= MAX_COLUMNS && |a| == |b|
    requires forall i | 0 <= i < |a| :: SameOutline(a[i], b[i])
    ensures PeriodicRows(a, columns) == PeriodicRows(b, columns)
  {
    if a != [] {
      OutlineKeepsPeriodic(a[..|a| - 1], b[..|b| - 1], columns);
    }
  }

  lemma OutlineKeepsOrder(a: seq<Sample>, b: seq<Sample>, columns: nat)
    requires 1 <= columns <= MAX_COLUMNS && |a| == |b| && Increasing(a, columns)
    requires forall i | 0 <= i < |a| :: SameOutline(a[i], b[i])
    ensures Increasing(b, columns)
    ensures forall i | 0 <= i < |a| :: a[i].periodic == b[i].periodic
  {
  }

  lemma {:induction false} PeriodicRowsOfConcat(a: seq<Sample>, b: seq<Sample>, columns: nat)
    requires 1 <= columns <= MAX_COLUMNS
    ensures PeriodicRows(a + b, columns) == PeriodicRows(a, columns) + PeriodicRows(b, columns)
  {
    if b == [] {
      assert a + b == a;
    } else {
      var init := b[..|b| - 1];
      assert (a + b)[..|a + b| - 1] == a + init;
      PeriodicRowsOfConcat(a, init, columns);
    }
  }

  lemma NotPeriodic(s: Sample, columns: nat)
    requires 1 <= columns <= MAX_COLUMNS && !s.periodic
    ensures PeriodicRows([s], columns) == []
  {
    assert [s][..0] == [];
  }

  /** Evicting a sample that is not periodic keeps the periodic rows. */
  lemma EvictionKeepsPeriodic(a: seq<Sample>, m: nat, columns: nat)
    requires 1 <= columns <= MAX_COLUMNS && m < |a| && !a[m].periodic
    ensures PeriodicRows(a[..m] + a[m + 1..], columns) == PeriodicRows(a, columns)
  {
    hide PeriodicRows, Row;
    var front, mid, back := a[..m], [a[m]], a[m + 1..];
    PeriodicRowsOfConcat(front, back, columns);
    PeriodicRowsOfConcat(front, mid, columns);
    PeriodicRowsOfConcat(front + mid, back, columns);
    assert a == front + mid + back;
    NotPeriodic(a[m], columns);
  }

  lemma {:induction false} AllPeriodic(samples: seq<Sample>, columns: nat)
    requires 1 <= columns <= MAX_COLUMNS
    requires forall s | s in samples :: s.periodic
    ensures |PeriodicRows(samples, columns)| == |samples|
  {
    if samples != [] {
      AllPeriodic(samples[..|samples| - 1], columns);
    }
  }

  /** At most eight scheduled rows fit in the stream, so twenty-four samples are never all periodic. */
  lemma ScheduleIsShort(k: nat, expected: nat)
    requires k * (expected / 9 + 1) <= expected
    ensures k <= 8
  {
    var interval := expected / 9 + 1;
    assert k >= 9 ==> k * interval >= 9 * interval;
  }

  // ---------------------------------------------------------------- single steps on samples

  predicate Marked(s: Sample, column: Column) {
    s.equal[column] == 0
  }

  function Upgraded(s: Sample, source: Sample): Sample {
    s.(column := source.column, equal := s.equal[source.column := source.equal[source.column]])
  }

  function Zeroed(s: Sample, below: nat): (z: Sample)
    requires below <= MAX_COLUMNS
  {
    s.(equal := seq(below, _ => 0) + s.equal[below..])
  }

  function Filled(s: Sample, from: Sample, changed: nat, columns: nat): Sample {
    s.(equal := seq(MAX_COLUMNS, c requires 0 <= c < MAX_COLUMNS =>
      if changed <= c < columns && s.equal[c] == 0 then from.equal[c] else s.equal[c]))
  }

  function Max(a: nat, b: nat): nat {
    if a > b then a else b
  }

  function Evicted(samples: seq<Sample>, minimum: nat): seq<Sample>
    requires |samples| == SAMPLE_COUNT ==> minimum < |samples|
  {
    if |samples| == SAMPLE_COUNT then samples[..minimum] + samples[minimum + 1..] else samples
  }

  /** What `insert` does to the stored samples. */
  ghost predicate Inserted(old': seq<Sample>, minimum: nat, new': Sample, equalZero: nat, columns: nat,
                           now: seq<Sample>)
    requires columns <= MAX_COLUMNS && equalZero <= MAX_COLUMNS
    requires |old'| == SAMPLE_COUNT ==> minimum < |old'|
  {
    var marked := MarkedSet(old', new'.column);
    if new'.periodic || marked == {} then
      now == Evicted(old', minimum) + [Zeroed(new', equalZero)]
    else if exists i :: i in marked && old'[i].periodic then
      now == old'
    else
      exists u :: u in marked && (forall i | i in marked :: !Better(old'[i], old'[u], columns))
                  && now == old'[u := Upgraded(old'[u], new')]
  }

  // ---------------------------------------------------------------- steps keep samples exact

  ghost predicate ChangesBelow(ch: seq<nat>, columns: nat) {
    forall j | 0 <= j < |ch| :: ch[j] < columns
  }

  /** A best row whose run at field `c` is closing carries the exact count of that run. */
  ghost predicate ClosingOk(ch: seq<nat>, wit: seq<nat>, s: Sample, columns: nat, c: nat) {
    && BestOk(ch, wit, s, columns, c)
    && s.equal[c] == |ch| - RunStart(ch, |ch| - 1, c)
  }

  lemma ClosingIsStored(ch: seq<nat>, wit: seq<nat>, s: Sample, columns: nat, c: nat)
    requires ChangesBelow(ch, columns) && ClosingOk(ch, wit, s, columns, c)
    ensures StoredOk(ch, wit, Zeroed(s, c), columns, c)
  {
    var r := Row(s, columns);
    var z := Zeroed(s, c);
    forall k | 0 <= k < c ensures RunEnd(ch, r, k) == |ch| {
      EndIsUnique(ch, r, |ch|, k);
    }
    OpenRun(ch, r, c);
    forall k | c < k < columns ensures z.equal[k] == RunLength(ch, r, k) {
      assert PartialAt(ch, s, columns, k);
      EndIsUnique(ch, r, r + 1, k);
    }
    StartIsUnique(ch, r, r, columns - 1);
    assert PartialAt(ch, s, columns, columns - 1);
    assert z.equal[c] == RunLength(ch, r, c);
  }

  lemma UpgradeIsStored(ch: seq<nat>, wit: seq<nat>, s: Sample, source: Sample, columns: nat, c: Column)
    requires StoredOk(ch, wit, s, columns, c + 1) && Marked(s, c)
    requires ClosingOk(ch, wit, source, columns, c)
    ensures StoredOk(ch, wit, Upgraded(s, source), columns, c)
  {
    OpenRun(ch, Row(s, columns), c);
  }

  /** A sample without a mark lies before the run that is still open. */
  lemma UnmarkedIsEarlier(ch: seq<nat>, wit: seq<nat>, s: Sample, b: Sample, columns: nat, c: Column)
    requires StoredOk(ch, wit, s, columns, c + 1) && !Marked(s, c)
    requires BestOk(ch, wit, b, columns, c)
    ensures Row(s, columns) < Row(b, columns)
  {
    OpenRun(ch, Row(s, columns), c);
    OpenRun(ch, Row(b, columns), c);
  }

  /** Back-filling closes every mark at `changed` and beyond with the exact count. */
  lemma FillIsStored(ch: seq<nat>, wit: seq<nat>, s: Sample, current: Sample, columns: nat, changed: nat)
    requires StoredOk(ch, wit, s, columns, changed) && CurrentOk(ch, wit, current, columns)
    ensures StoredOk(ch, wit, Filled(s, current, changed, columns), columns, changed)
    ensures forall c | changed <= c < columns :: Filled(s, current, changed, columns).equal[c] != 0
  {
    var r := Row(s, columns);
    forall c | changed <= c < columns - 1 && s.equal[c] == 0
      ensures current.equal[c] == RunLength(ch, r, c)
    {
      OpenRun(ch, r, c);
      assert PartialAt(ch, current, columns, c);
    }
  }

  /** Once every mark at `f` and beyond is filled, the stream may move on to a row that first
      differs at `f`. */
  lemma StoredExtends(ch: seq<nat>, wit: seq<nat>, s: Sample, columns: nat, f: nat, w: nat)
    requires StoredOk(ch, wit, s, columns, f) && f < columns
    requires forall c | f <= c < columns :: s.equal[c] != 0
    ensures StoredOk(ch + [f], wit + [w], s, columns, columns - 1)
  {
    var r := Row(s, columns);
    forall c | 0 <= c < columns
      ensures RunStart(ch + [f], r, c) == RunStart(ch, r, c)
      ensures RunsBefore(ch + [f], r, c) == RunsBefore(ch, r, c)
      ensures RunEnd(ch + [f], r, c) == if RunEnd(ch, r, c) == |ch| && f > c then |ch| + 1 else RunEnd(ch, r, c)
    {
      Extend(ch, f, r, c);
    }
  }

  /** A row that extends the newest row's next longer run has a larger count there. */
  lemma LongerIsBetter(ch: seq<nat>, wit: seq<nat>, best: Sample, now: Sample, columns: nat, c: nat, f: nat, w: nat)
    requires BestOk(ch, wit, best, columns, c) && c + 1 < f < columns && Row(best, columns) + 1 == |ch|
    requires CurrentOk(ch + [f], wit + [w], now, columns) && now.column == c
    ensures BetterAfter(now, best, columns)
  {
    var ch', r := ch + [f], Row(best, columns);
    Extend(ch, f, r, c + 1);
    StartIsUnique(ch', RunStart(ch, r, c + 1), r + 1, c + 1);
    assert PartialAt(ch', now, columns, c + 1) && PartialAt(ch, best, columns, c + 1);
    assert now.equal[c + 1] == best.equal[c + 1] + 1;
  }

  /** The key step: a best row that survives a new row of its own run either is not the newest
      row, or the new row closes the next longer prefix.  Otherwise the new row would have a
      larger count there and would have replaced it. */
  lemma BestExtends(ch: seq<nat>, wit: seq<nat>, best: Sample, now: Sample, columns: nat, c: nat, f: nat, w: nat)
    requires BestOk(ch, wit, best, columns, c) && c < f < columns
    requires CurrentOk(ch + [f], wit + [w], now, columns) && now.column == c
    requires !BetterAfter(now, best, columns)
    ensures BestOk(ch + [f], wit + [w], best, columns, c)
  {
    var ch', r := ch + [f], Row(best, columns);
    forall k | 0 <= k < columns
      ensures RunStart(ch', r, k) == RunStart(ch, r, k) && RunsBefore(ch', r, k) == RunsBefore(ch, r, k)
    {
      Extend(ch, f, r, k);
    }
    Extend(ch, f, r, c);
    forall k | c < k < columns ensures PartialAt(ch', best, columns, k) {
      assert PartialAt(ch, best, columns, k);
    }
    if r + 1 == |ch| && f != c + 1 {
      LongerIsBetter(ch, wit, best, now, columns, c, f, w);
    }
  }

  /** The newest row is itself a valid best row for every field but the last. */
  lemma CurrentIsBest(ch: seq<nat>, wit: seq<nat>, now: Sample, columns: nat, c: nat)
    requires CurrentOk(ch, wit, now, columns) && now.column == c && c + 1 < columns
    ensures BestOk(ch, wit, now, columns, c)
  {
  }

  lemma StoredWeakens(ch: seq<nat>, wit: seq<nat>, samples: seq<Sample>, columns: nat, bound: nat, lower: nat)
    requires AllStored(ch, wit, samples, columns, bound) && lower <= bound
    ensures AllStored(ch, wit, samples, columns, lower)
  {
    forall i | 0 <= i < |samples| ensures StoredOk(ch, wit, samples[i], columns, lower) {
      assert StoredOk(ch, wit, samples[i], columns, bound);
    }
  }

  lemma EvictionKeepsOrder(samples: seq<Sample>, minimum: nat, columns: nat)
    requires 1 <= columns <= MAX_COLUMNS && Increasing(samples, columns)
    requires |samples| == SAMPLE_COUNT ==> minimum < |samples|
    ensures Increasing(Evicted(samples, minimum), columns)
    ensures forall s | s in Evicted(samples, minimum) :: s in samples
  {
  }

  /** Without a marked sample, everything stored lies before the open run, so the offer goes last. */
  lemma AppendKeepsSamples(ch: seq<nat>, wit: seq<nat>, was: seq<Sample>, least: nat, offer: Sample, c: Column,
                           columns: nat)
    requires ChangesBelow(ch, columns) && ClosingOk(ch, wit, offer, columns, c)
    requires AllStored(ch, wit, was, columns, c + 1) && Increasing(was, columns)
    requires |was| == SAMPLE_COUNT ==> least < |was|
    requires MarkedSet(was, c) == {}
    ensures AllStored(ch, wit, Evicted(was, least) + [Zeroed(offer, c)], columns, c)
    ensures Increasing(Evicted(was, least) + [Zeroed(offer, c)], columns)
  {
    EvictionKeepsOrder(was, least, columns);
    AllEarlier(ch, wit, was, offer, c, columns);
    AppendKeepsOrder(was, Evicted(was, least), Zeroed(offer, c), columns);
    AppendStored(ch, wit, was, Evicted(was, least), offer, c, columns);
  }

  lemma AllEarlier(ch: seq<nat>, wit: seq<nat>, was: seq<Sample>, offer: Sample, c: Column, columns: nat)
    requires BestOk(ch, wit, offer, columns, c)
    requires AllStored(ch, wit, was, columns, c + 1) && MarkedSet(was, c) == {}
    ensures forall s | s in was :: Row(s, columns) < Row(offer, columns)
  {
    forall k | 0 <= k < |was| ensures Row(was[k], columns) < Row(offer, columns) {
      assert k !in MarkedSet(was, c);
      assert StoredOk(ch, wit, was[k], columns, c + 1);
      UnmarkedIsEarlier(ch, wit, was[k], offer, columns, c);
    }
  }

  lemma AppendKeepsOrder(was: seq<Sample>, kept: seq<Sample>, last: Sample, columns: nat)
    requires 1 <= columns <= MAX_COLUMNS && Increasing(kept, columns)
    requires forall s | s in kept :: s in was
    requires forall s | s in was :: Row(s, columns) < Row(last, columns)
    ensures Increasing(kept + [last], columns)
  {
  }

  lemma AppendStored(ch: seq<nat>, wit: seq<nat>, was: seq<Sample>, kept: seq<Sample>, offer: Sample, c: Column,
                     columns: nat)
    requires ChangesBelow(ch, columns) && ClosingOk(ch, wit, offer, columns, c)
    requires AllStored(ch, wit, was, columns, c + 1) && forall s | s in kept :: s in was
    ensures AllStored(ch, wit, kept + [Zeroed(offer, c)], columns, c)
  {
    StoredWeakens(ch, wit, was, columns, c + 1, c);
    ClosingIsStored(ch, wit, offer, columns, c);
    var now := kept + [Zeroed(offer, c)];
    forall i | 0 <= i < |now| ensures StoredOk(ch, wit, now[i], columns, c) {
      if i < |kept| {
        assert now[i] in kept;
        var k :| 0 <= k < |was| && was[k] == now[i];
        assert StoredOk(ch, wit, was[k], columns, c);
      }
    }
  }

  lemma UpgradeKeepsSamples(ch: seq<nat>, wit: seq<nat>, was: seq<Sample>, offer: Sample, u: nat, c: Column,
                            columns: nat)
    requires ClosingOk(ch, wit, offer, columns, c)
    requires AllStored(ch, wit, was, columns, c + 1) && Increasing(was, columns)
    requires u in MarkedSet(was, c)
    ensures AllStored(ch, wit, was[u := Upgraded(was[u], offer)], columns, c)
    ensures Increasing(was[u := Upgraded(was[u], offer)], columns)
  {
    StoredWeakens(ch, wit, was, columns, c + 1, c);
    assert StoredOk(ch, wit, was[u], columns, c + 1);
    UpgradeIsStored(ch, wit, was[u], offer, columns, c);
  }

  /** Offering a closing best row keeps every stored sample exact and in stream order. */
  lemma InsertKeepsSamples(ch: seq<nat>, wit: seq<nat>, was: seq<Sample>, least: nat, offer: Sample, c: Column,
                           columns: nat, now: seq<Sample>)
    requires ChangesBelow(ch, columns) && ClosingOk(ch, wit, offer, columns, c)
    requires AllStored(ch, wit, was, columns, c + 1) && Increasing(was, columns)
    requires |was| == SAMPLE_COUNT ==> least < |was|
    requires Inserted(was, least, offer, c, columns, now)
    ensures AllStored(ch, wit, now, columns, c) && Increasing(now, columns)
  {
    var marked := MarkedSet(was, c);
    if marked == {} {
      AppendKeepsSamples(ch, wit, was, least, offer, c, columns);
    } else if exists i :: i in marked && was[i].periodic {
      StoredWeakens(ch, wit, was, columns, c + 1, c);
    } else {
      var u :| u in marked && now == was[u := Upgraded(was[u], offer)];
      UpgradeKeepsSamples(ch, wit, was, offer, u, c, columns);
    }
  }

  /** Zeros appear only below the largest field that was ever zeroed. */
  lemma InsertKeepsLimit(was: seq<Sample>, least: nat, offer: Sample, equalZero: nat, columns: nat, now: seq<Sample>,
                         limit: nat)
    requires 1 <= columns <= MAX_COLUMNS && equalZero < columns
    requires |was| == SAMPLE_COUNT ==> least < |was|
    requires Inserted(was, least, offer, equalZero, columns, now)
    requires NoZerosFrom(was, columns, limit)
    requires forall c | equalZero <= c < columns :: offer.equal[c] != 0
    requires !offer.periodic ==> offer.column == equalZero
    ensures NoZerosFrom(now, columns, Max(equalZero, limit))
  {
  }

  /** The best rows of the runs still open at fields below `upTo`. */
  ghost predicate AllBest(ch: seq<nat>, wit: seq<nat>, best: seq<Sample>, columns: nat, upTo: nat) {
    && |best| == MAX_COLUMNS && columns <= MAX_COLUMNS
    && (forall c | 0 <= c < columns - 1 :: best[c].column == c)
    && forall c | 0 <= c < upTo && c < columns - 1 :: BestOk(ch, wit, best[c], columns, c)
                                                      && Foremost(ch, best[c], columns, c)
  }

  /** Rows of the run of row `q` at field `k`, up to `q` itself. */
  ghost function Seen(ch: seq<nat>, q: nat, k: nat): nat
    requires q < |ch|
  {
    q + 1 - RunStart(ch, q, k)
  }

  /** When it was the newest, row `q` had larger counts than row `r` had, from field `from` on. */
  ghost predicate More(ch: seq<nat>, q: nat, r: nat, from: nat, columns: nat)
    requires q < |ch| && r < |ch|
    decreases columns - from
  {
    if from >= columns then false
    else if Seen(ch, q, from) != Seen(ch, r, from) then Seen(ch, q, from) > Seen(ch, r, from)
    else More(ch, q, r, from + 1, columns)
  }

  /** No row of the open run had larger counts, when it was the newest, than the row of `s`. */
  ghost predicate Foremost(ch: seq<nat>, s: Sample, columns: nat, c: nat) {
    && 1 <= columns <= MAX_COLUMNS && Row(s, columns) < |ch|
    && forall q | RunStart(ch, |ch| - 1, c) <= q < |ch| :: !MoreAfter(ch, q, Row(s, columns), c, columns)
  }

  ghost predicate MoreAfter(ch: seq<nat>, q: nat, r: nat, c: nat, columns: nat)
    requires q < |ch| && r < |ch|
  {
    More(ch, q, r, c + 1, columns)
  }

  lemma {:induction false} MoreLater(ch: seq<nat>, f: nat, q: nat, r: nat, from: nat, columns: nat)
    requires q < |ch| && r < |ch|
    ensures More(ch + [f], q, r, from, columns) == More(ch, q, r, from, columns)
    decreases columns - from
  {
    if from < columns {
      Extend(ch, f, q, from);
      Extend(ch, f, r, from);
      MoreLater(ch, f, q, r, from + 1, columns);
    }
  }

  lemma {:induction false} NotMoreTransitive(ch: seq<nat>, q: nat, r: nat, n: nat, from: nat, columns: nat)
    requires q < |ch| && r < |ch| && n < |ch| && !More(ch, q, r, from, columns) && !More(ch, r, n, from, columns)
    ensures !More(ch, q, n, from, columns)
    decreases columns - from
  {
    if from < columns && Seen(ch, q, from) == Seen(ch, r, from) == Seen(ch, n, from) {
      NotMoreTransitive(ch, q, r, n, from + 1, columns);
    }
  }

  lemma {:induction false} NotMoreThanItself(ch: seq<nat>, q: nat, from: nat, columns: nat)
    requires q < |ch|
    ensures !More(ch, q, q, from, columns)
    decreases columns - from
  {
    if from < columns {
      NotMoreThanItself(ch, q, from + 1, columns);
    }
  }

  /** The comparison of the counters, hashes aside. */
  lemma {:induction false} BetterIsMore(ch: seq<nat>, now: Sample, best: Sample, columns: nat, from: nat)
    requires 1 <= columns <= MAX_COLUMNS && Row(now, columns) < |ch| && Row(best, columns) < |ch|
    requires forall k | from <= k < columns :: PartialAt(ch, now, columns, k) && PartialAt(ch, best, columns, k)
    ensures BetterFrom(now, best, from, columns) ==> !More(ch, Row(best, columns), Row(now, columns), from, columns)
    ensures !BetterFrom(now, best, from, columns) ==> !More(ch, Row(now, columns), Row(best, columns), from, columns)
    decreases columns - from
  {
    if from < columns {
      assert PartialAt(ch, now, columns, from) && PartialAt(ch, best, columns, from);
      if now.equal[from] == best.equal[from] {
        BetterIsMore(ch, now, best, columns, from + 1);
      }
    }
  }

  /** The newest row in a run of its own. */
  lemma NewRunForemost(ch: seq<nat>, wit: seq<nat>, now: Sample, columns: nat, c: nat)
    requires CurrentOk(ch, wit, now, columns) && c < columns && ch[|ch| - 1] <= c
    ensures Foremost(ch, now, columns, c)
  {
    NotMoreThanItself(ch, |ch| - 1, c + 1, columns);
  }

  /** Which of the two rows is kept is foremost in the run that both belong to. */
  lemma ForemostStep(ch: seq<nat>, wit: seq<nat>, best: Sample, now: Sample, columns: nat, c: nat, f: nat, w: nat)
    requires CurrentOk(ch + [f], wit + [w], now, columns) && now.column == c && c + 1 < columns && c < f < columns
    requires BestOk(ch, wit, best, columns, c) && Foremost(ch, best, columns, c)
    ensures Foremost(ch + [f], if BetterAfter(now, best, columns) then now else best, columns, c)
  {
    hide RunStart, CurrentOk, BestOk, BetterAfter, More, MoreAfter;
    var ch', n, r := ch + [f], |ch|, Row(best, columns);
    KeptIsNotLess(ch, wit, best, now, columns, c, f, w);
    OpenRunGoesOn(ch, f, c);
    var kept := if BetterAfter(now, best, columns) then n else r;
    forall q | RunStart(ch', n, c) <= q < |ch'| ensures !MoreAfter(ch', q, kept, c, columns) {
      StillForemost(ch, f, q, r, kept, c, columns);
    }
  }

  lemma OpenRunGoesOn(ch: seq<nat>, f: nat, c: nat)
    requires ch != [] && c < f
    ensures RunStart(ch + [f], |ch|, c) == RunStart(ch, |ch| - 1, c)
  {
    Extend(ch, f, |ch| - 1, c);
    StartIsUnique(ch + [f], RunStart(ch, |ch| - 1, c), |ch|, c);
  }

  lemma StillForemost(ch: seq<nat>, f: nat, q: nat, r: nat, kept: nat, c: nat, columns: nat)
    requires q <= |ch| && r < |ch| && kept <= |ch| && (q < |ch| ==> !MoreAfter(ch, q, r, c, columns))
    requires !More(ch + [f], |ch|, kept, c + 1, columns) && !More(ch + [f], r, kept, c + 1, columns)
    ensures !MoreAfter(ch + [f], q, kept, c, columns)
  {
    hide More;
    if q < |ch| {
      MoreLater(ch, f, q, r, c + 1, columns);
      NotMoreTransitive(ch + [f], q, r, kept, c + 1, columns);
    }
  }

  lemma KeptIsNotLess(ch: seq<nat>, wit: seq<nat>, best: Sample, now: Sample, columns: nat, c: nat, f: nat, w: nat)
    requires CurrentOk(ch + [f], wit + [w], now, columns) && now.column == c && c + 1 < columns && c < f < columns
    requires BestOk(ch, wit, best, columns, c)
    ensures ch != [] && Row(now, columns) == |ch| && Row(best, columns) < |ch|
    ensures var ch', kept := ch + [f], if BetterAfter(now, best, columns) then |ch| else Row(best, columns);
            !More(ch', |ch|, kept, c + 1, columns) && !More(ch', Row(best, columns), kept, c + 1, columns)
  {
    var ch', n, r := ch + [f], |ch|, Row(best, columns);
    forall k | c + 1 <= k < columns ensures PartialAt(ch', now, columns, k) && PartialAt(ch', best, columns, k) {
      assert PartialAt(ch, best, columns, k);
      Extend(ch, f, r, k);
    }
    hide More, PartialAt, RunStart, BetterFrom;
    BetterIsMore(ch', now, best, columns, c + 1);
    NotMoreThanItself(ch', n, c + 1, columns);
    NotMoreThanItself(ch', r, c + 1, columns);
  }

  lemma FillKeepsSamples(ch: seq<nat>, wit: seq<nat>, was: seq<Sample>, current: Sample, columns: nat, changed: nat,
                         now: seq<Sample>)
    requires AllStored(ch, wit, was, columns, changed) && CurrentOk(ch, wit, current, columns)
    requires |now| == |was| && forall i | 0 <= i < |now| :: now[i] == Filled(was[i], current, changed, columns)
    ensures AllStored(ch, wit, now, columns, changed)
    ensures NoZerosFrom(now, columns, changed)
  {
    forall i | 0 <= i < |was|
      ensures StoredOk(ch, wit, now[i], columns, changed)
      ensures forall c | changed <= c < columns :: now[i].equal[c] != 0
    {
      assert StoredOk(ch, wit, was[i], columns, changed);
      FillIsStored(ch, wit, was[i], current, columns, changed);
    }
  }

  lemma BestCloses(ch: seq<nat>, wit: seq<nat>, b: Sample, current: Sample, columns: nat, c: Column)
    requires BestOk(ch, wit, b, columns, c) && CurrentOk(ch, wit, current, columns)
    requires ChangesBelow(ch, columns)
    ensures var offer := b.(equal := b.equal[c := current.equal[c]]);
            && ClosingOk(ch, wit, offer, columns, c)
            && forall k | c <= k < columns :: offer.equal[k] != 0
  {
    var offer := b.(equal := b.equal[c := current.equal[c]]);
    assert PartialAt(ch, current, columns, c);
    forall k | c < k < columns ensures PartialAt(ch, offer, columns, k) && offer.equal[k] != 0 {
      assert PartialAt(ch, b, columns, k);
    }
  }

  function Closing(best: seq<Sample>, current: Sample, column: Column): seq<Sample>
    requires column < |best|
  {
    best[column := best[column].(equal := best[column].equal[column := current.equal[column]])]
  }

  lemma ClosingKeepsBest(ch: seq<nat>, wit: seq<nat>, best: seq<Sample>, current: Sample, columns: nat, c: Column)
    requires AllBest(ch, wit, best, columns, c + 1) && CurrentOk(ch, wit, current, columns) && c + 1 < columns
    requires ChangesBelow(ch, columns)
    ensures AllBest(ch, wit, Closing(best, current, c), columns, c)
    ensures ClosingOk(ch, wit, Closing(best, current, c)[c], columns, c) && !Closing(best, current, c)[c].periodic
    ensures forall k | c <= k < columns :: Closing(best, current, c)[c].equal[k] != 0
  {
    hide Foremost;
    BestCloses(ch, wit, best[c], current, columns, c);
    var now := Closing(best, current, c);
    forall k | 0 <= k < c ensures BestOk(ch, wit, now[k], columns, k) && Foremost(ch, now[k], columns, k) {
      assert BestOk(ch, wit, best[k], columns, k) && Foremost(ch, best[k], columns, k);
    }
  }

  function AdvancedEqual(s: Sample, f: nat, columns: nat, c: Column): nat {
    if c >= columns then s.equal[c] else if c < f then s.equal[c] + 1 else 1
  }

  function AdvancedLess(s: Sample, f: nat, columns: nat, c: Column): nat {
    if f <= c < columns then s.less[c] + s.equal[c] else s.less[c]
  }

  function AdvancedDistinct(s: Sample, f: nat, columns: nat, c: Column): nat {
    if f <= c < columns then s.distinctLess[c] + 1 else s.distinctLess[c]
  }

  /** The accumulator after one more row that first differs from the last one at field `f`. */
  function Advanced(s: Sample, f: nat, columns: nat): Sample {
    Sample(
      seq(MAX_COLUMNS, c requires 0 <= c < MAX_COLUMNS => AdvancedEqual(s, f, columns, c)),
      seq(MAX_COLUMNS, c requires 0 <= c < MAX_COLUMNS => AdvancedLess(s, f, columns, c)),
      seq(MAX_COLUMNS, c requires 0 <= c < MAX_COLUMNS => AdvancedDistinct(s, f, columns, c)),
      s.witnessId, s.periodic, s.column, s.hash)
  }

  lemma AdvanceOk(ch: seq<nat>, wit: seq<nat>, s: Sample, columns: nat, f: nat, w: nat, h: nat)
    requires CurrentOk(ch, wit, s, columns) && f < columns
    ensures CurrentOk(ch + [f], wit + [w], Advanced(s, f, columns).(witnessId := w, hash := h), columns)
  {
    var ch', n := ch + [f], |ch|;
    var now := Advanced(s, f, columns);
    assert PartialAt(ch, s, columns, columns - 1);
    forall c | 0 <= c < columns
      ensures now.less[c] == RunStart(ch', n, c) && now.distinctLess[c] == RunsBefore(ch', n, c)
      ensures now.equal[c] == n + 1 - RunStart(ch', n, c)
    {
      AdvancedAt(ch, wit, s, columns, f, c);
    }
  }

  lemma AdvancedAt(ch: seq<nat>, wit: seq<nat>, s: Sample, columns: nat, f: nat, c: nat)
    requires CurrentOk(ch, wit, s, columns) && f < columns && c < columns
    ensures var now, ch', n := Advanced(s, f, columns), ch + [f], |ch|;
            && now.less[c] == RunStart(ch', n, c) && now.distinctLess[c] == RunsBefore(ch', n, c)
            && now.equal[c] == n + 1 - RunStart(ch', n, c)
  {
    var n := |ch|;
    assert PartialAt(ch, s, columns, c);
    Extend(ch, f, n - 1, c);
    StartIsUnique(ch + [f], if c < f then RunStart(ch, n - 1, c) else n, n, c);
  }

  lemma NoSamples(ch: seq<nat>, wit: seq<nat>, columns: nat, limit: nat)
    requires 1 <= columns <= MAX_COLUMNS
    ensures AllStored(ch, wit, [], columns, columns - 1) && NoZerosFrom([], columns, limit) && Increasing([], columns)
  {
  }

  lemma FirstRowOk(columns: nat, w: nat, h: nat)
    requires 1 <= columns <= MAX_COLUMNS
    ensures CurrentOk([0], [w], ZERO_SAMPLE.(equal := seq(columns, _ => 1) + ZERO_SAMPLE.equal[columns..],
                                             witnessId := w, hash := h), columns)
  {
  }

  lemma SamplesExtend(ch: seq<nat>, wit: seq<nat>, samples: seq<Sample>, columns: nat, f: nat, w: nat)
    requires AllStored(ch, wit, samples, columns, f) && f < columns
    requires forall i, c | 0 <= i < |samples| && f <= c < columns :: samples[i].equal[c] != 0
    ensures AllStored(ch + [f], wit + [w], samples, columns, columns - 1)
    ensures forall s | s in samples :: Row(s, columns) < |ch|
  {
    forall i | 0 <= i < |samples|
      ensures StoredOk(ch + [f], wit + [w], samples[i], columns, columns - 1) && Row(samples[i], columns) < |ch|
    {
      assert StoredOk(ch, wit, samples[i], columns, f);
      StoredExtends(ch, wit, samples[i], columns, f, w);
    }
  }

  /** A scheduled row is stored with every longer count still open. */
  lemma PeriodicKeepsSamples(ch: seq<nat>, wit: seq<nat>, was: seq<Sample>, least: nat, now: Sample, columns: nat)
    requires CurrentOk(ch, wit, now.(periodic := false), columns) && now.periodic
    requires AllStored(ch, wit, was, columns, columns - 1) && Increasing(was, columns)
    requires forall s | s in was :: Row(s, columns) < |ch| - 1
    requires |was| == SAMPLE_COUNT ==> least < |was|
    ensures AllStored(ch, wit, Evicted(was, least) + [Zeroed(now, columns - 1)], columns, columns - 1)
    ensures Increasing(Evicted(was, least) + [Zeroed(now, columns - 1)], columns)
  {
    hide StoredOk, Evicted, Increasing, AllStored;
    var z := Zeroed(now, columns - 1);
    ZeroedIsStored(ch, wit, now, columns);
    EvictionKeepsOrder(was, least, columns);
    AppendKeepsOrder(was, Evicted(was, least), z, columns);
    EvictionKeepsStored(ch, wit, was, least, z, columns, columns - 1);
  }

  lemma ZeroedIsStored(ch: seq<nat>, wit: seq<nat>, now: Sample, columns: nat)
    requires CurrentOk(ch, wit, now.(periodic := false), columns) && now.periodic
    ensures StoredOk(ch, wit, Zeroed(now, columns - 1), columns, columns - 1)
    ensures 1 <= columns <= MAX_COLUMNS && Row(Zeroed(now, columns - 1), columns) == |ch| - 1
  {
    assert PartialAt(ch, now.(periodic := false), columns, columns - 1);
  }

  lemma EvictionKeepsStored(ch: seq<nat>, wit: seq<nat>, was: seq<Sample>, least: nat, last: Sample, columns: nat,
                            bound: nat)
    requires AllStored(ch, wit, was, columns, bound) && StoredOk(ch, wit, last, columns, bound)
    requires |was| == SAMPLE_COUNT ==> least < |was|
    ensures AllStored(ch, wit, Evicted(was, least) + [last], columns, bound)
  {
    hide StoredOk;
    var all := Evicted(was, least) + [last];
    forall i | 0 <= i < |all| ensures StoredOk(ch, wit, all[i], columns, bound) {
      if i < |all| - 1 {
        assert all[i] in was;
        var k :| 0 <= k < |was| && was[k] == all[i];
      }
    }
  }

  lemma CurrentIgnoresColumn(ch: seq<nat>, wit: seq<nat>, now: Sample, columns: nat, c: Column)
    requires CurrentOk(ch, wit, now, columns)
    ensures CurrentOk(ch, wit, now.(column := c), columns)
    ensures now.equal[columns - 1] != 0
    ensures Row(now, columns) == |ch| - 1
    ensures now.(column := c, periodic := true).(periodic := false) == now.(column := c)
  {
    assert PartialAt(ch, now, columns, columns - 1);
    forall k | 0 <= k < columns ensures PartialAt(ch, now.(column := c), columns, k) {
      assert PartialAt(ch, now, columns, k);
    }
  }

  /** One step of the final loop of `push`. */
  lemma BestStep(ch: seq<nat>, wit: seq<nat>, best: Sample, now: Sample, columns: nat, c: nat, f: nat, w: nat)
    requires CurrentOk(ch + [f], wit + [w], now, columns) && now.column == c && c + 1 < columns && f < columns
    requires c < f ==> BestOk(ch, wit, best, columns, c)
    requires columns <= MAX_COLUMNS && (c < f ==> Foremost(ch, best, columns, c))
    ensures var kept := if c >= f || BetterAfter(now, best, columns) then now else best;
            BestOk(ch + [f], wit + [w], kept, columns, c) && Foremost(ch + [f], kept, columns, c)
  {
    hide BestOk, CurrentOk, Foremost, BetterAfter;
    if c >= f {
      NewRunForemost(ch + [f], wit + [w], now, columns, c);
    } else {
      ForemostStep(ch, wit, best, now, columns, c, f, w);
    }
    if c >= f || BetterAfter(now, best, columns) {
      CurrentIsBest(ch + [f], wit + [w], now, columns, c);
    } else {
      BestExtends(ch, wit, best, now, columns, c, f, w);
    }
  }

  // ---------------------------------------------------------------- which runs are sampled

  /** Row `p` belongs to the run of row `r` at field `c`. */
  ghost predicate InRun(ch: seq<nat>, r: nat, c: nat, p: nat)
    requires r < |ch|
  {
    RunStart(ch, r, c) <= p < RunEnd(ch, r, c)
  }

  /** The run a sample stands for is longer than `length`, or as long and of a prefix not longer than `c`. */
  predicate Outweighs(s: Sample, length: nat, c: nat) {
    s.equal[s.column] > length || (s.equal[s.column] == length && s.column <= c)
  }

  predicate NotLighter(s: Sample, than: Sample) {
    Outweighs(s, than.equal[than.column], than.column)
  }

  /** No sample that may be evicted stands for less than the one at `least`. */
  ghost predicate Least(samples: seq<Sample>, least: nat) {
    && least < |samples| && !samples[least].periodic
    && forall i | 0 <= i < |samples| && !samples[i].periodic :: NotLighter(samples[i], samples[least])
  }

  /** A sample in the run keeps its place as long as the run deserves one. */
  ghost predicate StandsIn(ch: seq<nat>, samples: seq<Sample>, columns: nat, r: nat, c: nat)
    requires 1 <= columns <= MAX_COLUMNS && r < |ch|
  {
    exists i :: 0 <= i < |samples| && InRun(ch, r, c, Row(samples[i], columns))
                && (samples[i].periodic || Outweighs(samples[i], RunLength(ch, r, c), c))
  }

  /** All places are taken by scheduled rows and by samples of runs that weigh as much. */
  ghost predicate Crowded(samples: seq<Sample>, length: nat, c: nat) {
    && |samples| == SAMPLE_COUNT
    && forall i | 0 <= i < |samples| && !samples[i].periodic :: Outweighs(samples[i], length, c)
  }

  ghost predicate FairAt(ch: seq<nat>, samples: seq<Sample>, columns: nat, r: nat, c: nat)
    requires 1 <= columns <= MAX_COLUMNS && r < |ch|
  {
    StandsIn(ch, samples, columns, r, c) || Crowded(samples, RunLength(ch, r, c), c)
  }

  /** Every run that has closed, or is at `bound` or beyond, was treated fairly. */
  ghost predicate AllFair(ch: seq<nat>, samples: seq<Sample>, columns: nat, bound: nat)
    requires 1 <= columns <= MAX_COLUMNS
  {
    forall r: nat, c: nat | r < |ch| && c + 1 < columns && (c >= bound || RunEnd(ch, r, c) < |ch|) ::
      FairAt(ch, samples, columns, r, c)
  }

  /** A sample is marked only at prefixes shorter than the one it stands for. */
  ghost predicate MarksBelow(samples: seq<Sample>, columns: nat, bound: nat)
    requires columns <= MAX_COLUMNS
  {
    forall i | 0 <= i < |samples| && !samples[i].periodic ::
      && samples[i].equal[samples[i].column] != 0
      && forall k: nat | k < bound && k + 1 < columns :: samples[i].equal[k] == 0 ==> k < samples[i].column
  }

  /** No two samples stand for the same run. */
  ghost predicate OnePerRun(samples: seq<Sample>) {
    forall i, j | 0 <= i < j < |samples| && !samples[i].periodic && !samples[j].periodic ::
      samples[i].column == samples[j].column ==>
        samples[i].less[samples[i].column] != samples[j].less[samples[j].column]
  }

  ghost predicate Fairly(ch: seq<nat>, samples: seq<Sample>, columns: nat, bound: nat)
    requires 1 <= columns <= MAX_COLUMNS
  {
    MarksBelow(samples, columns, bound) && OnePerRun(samples) && AllFair(ch, samples, columns, bound)
  }

  /** Runs of shorter prefixes contain those of longer ones. */
  lemma RunsNest(ch: seq<nat>, r: nat, c: nat, d: nat)
    requires r < |ch| && c <= d
    ensures RunStart(ch, r, c) <= RunStart(ch, r, d) && RunEnd(ch, r, d) <= RunEnd(ch, r, c)
    ensures RunLength(ch, r, d) <= RunLength(ch, r, c)
  {
    assert SamePrefix(ch, RunStart(ch, r, d), r, c) && SamePrefix(ch, r, RunEnd(ch, r, d) - 1, c);
    StartReaches(ch, RunStart(ch, r, d), r, c);
    EndReaches(ch, r, RunEnd(ch, r, d) - 1, c);
  }

  lemma StartReaches(ch: seq<nat>, s: nat, r: nat, c: nat)
    requires s <= r < |ch| && SamePrefix(ch, s, r, c)
    ensures RunStart(ch, r, c) <= s
  {
  }

  lemma EndReaches(ch: seq<nat>, r: nat, last: nat, c: nat)
    requires r <= last < |ch| && SamePrefix(ch, r, last, c)
    ensures last < RunEnd(ch, r, c)
  {
  }

  lemma OutweighsTransitive(s: Sample, m: Sample, length: nat, c: nat)
    requires NotLighter(s, m) && Outweighs(m, length, c)
    ensures Outweighs(s, length, c)
  {
  }

  /** Some sample of the same row and standing. */
  ghost predicate HasHeir(now: seq<Sample>, s: Sample) {
    exists j :: 0 <= j < |now| && IsHeir(now[j], s)
  }

  ghost predicate IsHeir(now: Sample, s: Sample) {
    now.less == s.less && now.periodic == s.periodic && (!s.periodic ==> NotLighter(now, s))
  }

  /** From one set of samples to the next: only the least may go, and only for others that are not lighter. */
  ghost predicate Succeeds(was: seq<Sample>, now: seq<Sample>, least: nat) {
    && (|was| == SAMPLE_COUNT ==>
          && |now| == SAMPLE_COUNT && least < |was| && !was[least].periodic
          && forall j | 0 <= j < |now| && !now[j].periodic :: NotLighter(now[j], was[least]))
    && forall i | 0 <= i < |was| && !(|was| == SAMPLE_COUNT && i == least) :: HasHeir(now, was[i])
  }

  lemma FairStep(ch: seq<nat>, was: seq<Sample>, now: seq<Sample>, least: nat, columns: nat, r: nat, c: nat)
    requires 1 <= columns <= MAX_COLUMNS && r < |ch| && Succeeds(was, now, least) && FairAt(ch, was, columns, r, c)
    ensures FairAt(ch, now, columns, r, c)
  {
    hide RunStart, RunEnd, RunLength;
    var length := RunLength(ch, r, c);
    if StandsIn(ch, was, columns, r, c) {
      var i :| 0 <= i < |was| && InRun(ch, r, c, Row(was[i], columns))
          && (was[i].periodic || Outweighs(was[i], length, c));
      if |was| == SAMPLE_COUNT && i == least {
        OthersOutweigh(was, now, least, length, c);
      } else {
        var j :| 0 <= j < |now| && IsHeir(now[j], was[i]);
        assert InRun(ch, r, c, Row(now[j], columns));
      }
    } else {
      OthersOutweigh(was, now, least, length, c);
    }
  }

  lemma OthersOutweigh(was: seq<Sample>, now: seq<Sample>, least: nat, length: nat, c: nat)
    requires |was| == SAMPLE_COUNT && Succeeds(was, now, least) && Outweighs(was[least], length, c)
    ensures Crowded(now, length, c)
  {
    hide Outweighs, HasHeir;
    forall j | 0 <= j < |now| && !now[j].periodic ensures Outweighs(now[j], length, c) {
      OutweighsTransitive(now[j], was[least], length, c);
    }
  }

  lemma FairSteps(ch: seq<nat>, was: seq<Sample>, now: seq<Sample>, least: nat, columns: nat, bound: nat)
    requires 1 <= columns <= MAX_COLUMNS && Succeeds(was, now, least) && AllFair(ch, was, columns, bound)
    ensures AllFair(ch, now, columns, bound)
  {
    hide FairAt, Succeeds;
    forall r: nat, c: nat | r < |ch| && c + 1 < columns && (c >= bound || RunEnd(ch, r, c) < |ch|)
      ensures FairAt(ch, now, columns, r, c)
    {
      FairStep(ch, was, now, least, columns, r, c);
    }
  }

  lemma IsItself(s: Sample)
    ensures IsHeir(s, s)
  {
  }

  /** A new sample takes the place of the least, if there is no other. */
  lemma AppendSucceeds(was: seq<Sample>, least: nat, last: Sample)
    requires |was| <= SAMPLE_COUNT
    requires |was| == SAMPLE_COUNT ==> Least(was, least) && (last.periodic || NotLighter(last, was[least]))
    ensures Succeeds(was, Evicted(was, least) + [last], least)
  {
    hide NotLighter;
    var now := Evicted(was, least) + [last];
    forall i | 0 <= i < |was| && !(|was| == SAMPLE_COUNT && i == least) ensures HasHeir(now, was[i]) {
      IsItself(was[i]);
      assert now[if |was| == SAMPLE_COUNT && i > least then i - 1 else i] == was[i];
    }
  }

  lemma UpgradeSucceeds(was: seq<Sample>, least: nat, u: nat, s: Sample)
    requires |was| <= SAMPLE_COUNT && u < |was| && IsHeir(s, was[u]) && !s.periodic
    requires |was| == SAMPLE_COUNT ==> Least(was, least)
    ensures Succeeds(was, was[u := s], least)
  {
    hide Outweighs;
    var now := was[u := s];
    forall i | 0 <= i < |was| ensures HasHeir(now, was[i]) {
      IsItself(was[i]);
      assert IsHeir(now[i], was[i]);
    }
    if |was| == SAMPLE_COUNT {
      OutweighsTransitive(s, was[u], was[least].equal[was[least].column], was[least].column);
    }
  }

  /** Samples changed one by one, each to an heir. */
  lemma HeirsSucceed(was: seq<Sample>, now: seq<Sample>, least: nat)
    requires |now| == |was| && forall i | 0 <= i < |was| :: IsHeir(now[i], was[i])
    requires |was| == SAMPLE_COUNT ==> Least(was, least)
    ensures Succeeds(was, now, least)
  {
    hide Outweighs;
    forall i | 0 <= i < |was| ensures HasHeir(now, was[i]) {
      assert IsHeir(now[i], was[i]);
    }
    if |was| == SAMPLE_COUNT {
      forall j | 0 <= j < |now| && !now[j].periodic ensures NotLighter(now[j], was[least]) {
        OutweighsTransitive(now[j], was[j], was[least].equal[was[least].column], was[least].column);
      }
    }
  }

  /** The closing run of field `c` gets what it deserves. */
  lemma ClosingRunIsFair(ch: seq<nat>, samples: seq<Sample>, columns: nat, c: nat)
    requires 1 <= columns <= MAX_COLUMNS && ch != [] && c + 1 < columns
    requires AllFair(ch, samples, columns, c + 1) && FairAt(ch, samples, columns, |ch| - 1, c)
    ensures AllFair(ch, samples, columns, c)
  {
    hide StandsIn, Crowded;
    forall r: nat, k: nat | r < |ch| && k + 1 < columns && (k >= c || RunEnd(ch, r, k) < |ch|)
      ensures FairAt(ch, samples, columns, r, k)
    {
      if k == c && RunEnd(ch, r, c) == |ch| {
        OpenRun(ch, r, c);
        EndIsUnique(ch, |ch| - 1, |ch|, c);
        SameRunSameFate(ch, samples, columns, r, |ch| - 1, c);
      }
    }
  }

  lemma SameRunSameFate(ch: seq<nat>, samples: seq<Sample>, columns: nat, r: nat, q: nat, c: nat)
    requires 1 <= columns <= MAX_COLUMNS && r < |ch| && q < |ch|
    requires RunStart(ch, r, c) == RunStart(ch, q, c) && RunEnd(ch, r, c) == RunEnd(ch, q, c)
    requires FairAt(ch, samples, columns, q, c)
    ensures FairAt(ch, samples, columns, r, c)
  {
    hide RunStart, RunEnd, Outweighs;
    if StandsIn(ch, samples, columns, q, c) {
      var i :| 0 <= i < |samples| && InRun(ch, q, c, Row(samples[i], columns))
               && (samples[i].periodic || Outweighs(samples[i], RunLength(ch, q, c), c));
      assert InRun(ch, r, c, Row(samples[i], columns));
    }
  }

  /** A stored sample of the open run, scheduled or standing for it, stands in. */
  lemma OpenRunIsHeld(ch: seq<nat>, samples: seq<Sample>, columns: nat, c: nat, i: nat)
    requires 1 <= columns <= MAX_COLUMNS && ch != [] && i < |samples| && Row(samples[i], columns) < |ch|
    requires RunEnd(ch, Row(samples[i], columns), c) == |ch|
    requires samples[i].periodic || (samples[i].column == c && samples[i].equal[c] == |ch| - RunStart(ch, |ch| - 1, c))
    ensures FairAt(ch, samples, columns, |ch| - 1, c)
  {
    OpenRun(ch, Row(samples[i], columns), c);
    EndIsUnique(ch, |ch| - 1, |ch|, c);
    assert InRun(ch, |ch| - 1, c, Row(samples[i], columns));
  }

  // The three outcomes of an offer.

  lemma RejectedIsFair(ch: seq<nat>, wit: seq<nat>, samples: seq<Sample>, least: nat, offer: Sample, columns: nat,
                       c: Column)
    requires 1 <= columns <= MAX_COLUMNS && ClosingOk(ch, wit, offer, columns, c) && Fairly(ch, samples, columns, c + 1)
    requires |samples| == SAMPLE_COUNT && Least(samples, least) && !Better(offer, samples[least], columns)
    ensures Fairly(ch, samples, columns, c)
  {
    hide RunStart, RunEnd, BetterAfter, ClosingOk, StandsIn, InRun;
    OfferIsOpen(ch, wit, offer, columns, c);
    var length := offer.equal[c];
    EndIsUniqueAtEnd(ch, c);
    assert Outweighs(samples[least], length, c);
    forall i | 0 <= i < |samples| && !samples[i].periodic ensures Outweighs(samples[i], length, c) {
      OutweighsTransitive(samples[i], samples[least], length, c);
    }
    assert Crowded(samples, RunLength(ch, |ch| - 1, c), c);
    ClosingRunIsFair(ch, samples, columns, c);
  }

  lemma EndIsUniqueAtEnd(ch: seq<nat>, c: nat)
    requires ch != []
    ensures RunEnd(ch, |ch| - 1, c) == |ch| && RunLength(ch, |ch| - 1, c) == |ch| - RunStart(ch, |ch| - 1, c)
  {
    EndIsUnique(ch, |ch| - 1, |ch|, c);
  }

  lemma DroppedIsFair(ch: seq<nat>, wit: seq<nat>, samples: seq<Sample>, columns: nat, c: Column, i: nat)
    requires c + 1 < columns <= MAX_COLUMNS && AllStored(ch, wit, samples, columns, c + 1)
    requires Fairly(ch, samples, columns, c + 1)
    requires i in MarkedSet(samples, c) && samples[i].periodic
    ensures Fairly(ch, samples, columns, c)
  {
    hide AllFair, FairAt;
    assert StoredOk(ch, wit, samples[i], columns, c + 1);
    OpenRunIsHeld(ch, samples, columns, c, i);
    ClosingRunIsFair(ch, samples, columns, c);
  }

  /** An upgraded sample stands for a run around the one it stood for. */
  lemma UpgradeIsHeir(ch: seq<nat>, wit: seq<nat>, s: Sample, source: Sample, columns: nat, c: Column)
    requires StoredOk(ch, wit, s, columns, c + 1) && Marked(s, c) && !s.periodic && c < s.column
    requires s.equal[s.column] != 0 && ClosingOk(ch, wit, source, columns, c)
    ensures IsHeir(Upgraded(s, source), s) && Row(s, columns) < |ch| && RunEnd(ch, Row(s, columns), c) == |ch|
  {
    var r := Row(s, columns);
    OpenRun(ch, r, c);
    RunsNest(ch, r, c, s.column);
  }

  lemma UpgradedIsFair(ch: seq<nat>, wit: seq<nat>, was: seq<Sample>, least: nat, offer: Sample, columns: nat,
                       c: Column, u: nat)
    requires ClosingOk(ch, wit, offer, columns, c) && AllStored(ch, wit, was, columns, c + 1)
    requires Fairly(ch, was, columns, c + 1) && |was| <= SAMPLE_COUNT && (|was| == SAMPLE_COUNT ==> Least(was, least))
    requires u in MarkedSet(was, c) && !was[u].periodic && offer.equal[c] != 0
    ensures Fairly(ch, was[u := Upgraded(was[u], offer)], columns, c)
  {
    hide AllFair, FairAt, IsHeir, ClosingOk, AllStored, MarksBelow, OnePerRun, Upgraded, Succeeds;
    OfferIsOpen(ch, wit, offer, columns, c);
    var now := was[u := Upgraded(was[u], offer)];
    MarkedIsOpen(ch, wit, was, columns, c, u);
    UpgradeIsHeir(ch, wit, was[u], offer, columns, c);
    UpgradedStands(ch, wit, was[u], offer, columns, c);
    UpgradeSucceeds(was, least, u, Upgraded(was[u], offer));
    FairSteps(ch, was, now, least, columns, c + 1);
    OpenRunIsHeld(ch, now, columns, c, u);
    ClosingRunIsFair(ch, now, columns, c);
    OthersStandElsewhere(ch, wit, was, columns, c);
    UpgradedStandApart(was, Upgraded(was[u], offer), columns, c, u);
  }

  lemma MarkedIsOpen(ch: seq<nat>, wit: seq<nat>, samples: seq<Sample>, columns: nat, c: Column, u: nat)
    requires c + 1 < columns <= MAX_COLUMNS && AllStored(ch, wit, samples, columns, c + 1)
    requires MarksBelow(samples, columns, c + 1) && u in MarkedSet(samples, c) && !samples[u].periodic
    ensures StoredOk(ch, wit, samples[u], columns, c + 1) && Marked(samples[u], c) && c < samples[u].column
    ensures samples[u].equal[samples[u].column] != 0
  {
    hide StoredOk;
  }

  lemma UpgradedStands(ch: seq<nat>, wit: seq<nat>, s: Sample, source: Sample, columns: nat, c: Column)
    requires StoredOk(ch, wit, s, columns, c + 1) && Marked(s, c) && ClosingOk(ch, wit, source, columns, c)
    ensures ch != [] && c + 1 < columns && source.column == c
    ensures var z := Upgraded(s, source);
            && z.column == c && z.periodic == s.periodic
            && z.equal[c] == source.equal[c] == |ch| - RunStart(ch, |ch| - 1, c)
            && Row(z, columns) == Row(s, columns) && z.less[c] == RunStart(ch, |ch| - 1, c)
            && forall k | 0 <= k < MAX_COLUMNS && k != c :: z.equal[k] == s.equal[k]
  {
    OpenRun(ch, Row(s, columns), c);
  }

  lemma UpgradedStandApart(was: seq<Sample>, s: Sample, columns: nat, c: Column, u: nat)
    requires c + 1 < columns <= MAX_COLUMNS && u < |was| && OnePerRun(was) && MarksBelow(was, columns, c + 1)
    requires s.column == c && s.equal[c] != 0 && !s.periodic && !was[u].periodic && c < was[u].column
    requires forall k | 0 <= k < MAX_COLUMNS && k != c :: s.equal[k] == was[u].equal[k]
    requires forall i | 0 <= i < |was| && !was[i].periodic && was[i].column == c :: was[i].less[c] != s.less[c]
    ensures OnePerRun(was[u := s]) && MarksBelow(was[u := s], columns, c)
  {
    var now := was[u := s];
    forall i | 0 <= i < |now| && !now[i].periodic
      ensures now[i].equal[now[i].column] != 0
      ensures forall k: nat | k < c && k + 1 < columns :: now[i].equal[k] == 0 ==> k < now[i].column
    {
    }
  }

  /** No sample stands for the run that is closing yet. */
  lemma OthersStandElsewhere(ch: seq<nat>, wit: seq<nat>, samples: seq<Sample>, columns: nat, c: Column)
    requires c + 1 < columns <= MAX_COLUMNS && ch != [] && AllStored(ch, wit, samples, columns, c + 1)
    requires MarksBelow(samples, columns, c + 1)
    ensures forall i | 0 <= i < |samples| && !samples[i].periodic && samples[i].column == c ::
              samples[i].less[c] != RunStart(ch, |ch| - 1, c)
  {
    forall i | 0 <= i < |samples| && !samples[i].periodic && samples[i].column == c
      ensures samples[i].less[c] != RunStart(ch, |ch| - 1, c)
    {
      assert StoredOk(ch, wit, samples[i], columns, c + 1);
      OpenRun(ch, Row(samples[i], columns), c);
    }
  }

  lemma AppendedIsFair(ch: seq<nat>, wit: seq<nat>, was: seq<Sample>, least: nat, offer: Sample, columns: nat,
                       c: Column)
    requires ClosingOk(ch, wit, offer, columns, c) && AllStored(ch, wit, was, columns, c + 1)
    requires 1 <= columns <= MAX_COLUMNS && Fairly(ch, was, columns, c + 1) && |was| <= SAMPLE_COUNT
    requires |was| == SAMPLE_COUNT ==> Least(was, least) && Better(offer, was[least], columns)
    requires forall k | c <= k < columns :: offer.equal[k] != 0
    ensures Fairly(ch, Evicted(was, least) + [Zeroed(offer, c)], columns, c)
  {
    hide AllFair, FairAt, ClosingOk, AllStored, MarksBelow, OnePerRun, Succeeds, Zeroed, Better, Evicted, NotLighter;
    ZeroedStands(offer, c);
    var last := Zeroed(offer, c);
    var now := Evicted(was, least) + [last];
    OfferIsOpen(ch, wit, offer, columns, c);
    if |was| == SAMPLE_COUNT {
      BetterIsNotLighter(offer, last, was[least], columns);
    }
    AppendSucceeds(was, least, last);
    FairSteps(ch, was, now, least, columns, c + 1);
    OpenRunIsHeld(ch, now, columns, c, |now| - 1);
    ClosingRunIsFair(ch, now, columns, c);
    OthersStandElsewhere(ch, wit, was, columns, c);
    KeptStandApart(was, least, last, columns, c);
  }

  lemma ZeroedStands(s: Sample, c: Column)
    ensures var z := Zeroed(s, c);
            z.column == s.column && z.periodic == s.periodic && z.less == s.less && z.equal[c] == s.equal[c]
  {
  }

  lemma NotBetterIsNotLighter(samples: seq<Sample>, least: nat, columns: nat)
    requires columns <= MAX_COLUMNS && least < |samples| && !samples[least].periodic
    requires forall i | 0 <= i < |samples| && !samples[i].periodic :: !Better(samples[least], samples[i], columns)
    ensures Least(samples, least)
  {
    hide BetterAfter;
  }

  /** Whatever becomes of an offer, the closing run is treated fairly. */
  lemma InsertIsFair(ch: seq<nat>, wit: seq<nat>, was: seq<Sample>, least: nat, offer: Sample, columns: nat, c: Column,
                     now: seq<Sample>)
    requires 1 <= columns <= MAX_COLUMNS && ClosingOk(ch, wit, offer, columns, c)
    requires AllStored(ch, wit, was, columns, c + 1) && Fairly(ch, was, columns, c + 1) && |was| <= SAMPLE_COUNT
    requires |was| == SAMPLE_COUNT ==> Least(was, least) && Better(offer, was[least], columns)
    requires forall k | c <= k < columns :: offer.equal[k] != 0
    requires (|was| == SAMPLE_COUNT ==> least < |was|) && Inserted(was, least, offer, c, columns, now)
    ensures Fairly(ch, now, columns, c)
  {
    hide ClosingOk, AllStored, Fairly, Least, Better, Upgraded, Zeroed, Evicted, Marked;
    OfferIsOpen(ch, wit, offer, columns, c);
    var marked := MarkedSet(was, c);
    if marked == {} {
      AppendedIsFair(ch, wit, was, least, offer, columns, c);
    } else if exists i :: i in marked && was[i].periodic {
      var i :| i in marked && was[i].periodic;
      DroppedIsFair(ch, wit, was, columns, c, i);
    } else {
      var u :| u in marked && now == was[u := Upgraded(was[u], offer)];
      UpgradedIsFair(ch, wit, was, least, offer, columns, c, u);
    }
  }

  lemma BetterIsNotLighter(offer: Sample, last: Sample, s: Sample, columns: nat)
    requires columns <= MAX_COLUMNS && Better(offer, s, columns)
    requires last.column == offer.column && last.equal[last.column] == offer.equal[offer.column]
    ensures NotLighter(last, s)
  {
  }

  lemma OfferIsOpen(ch: seq<nat>, wit: seq<nat>, offer: Sample, columns: nat, c: Column)
    requires ClosingOk(ch, wit, offer, columns, c)
    ensures ch != [] && c + 1 < columns <= MAX_COLUMNS && offer.column == c && !offer.periodic
    ensures offer.equal[c] == |ch| - RunStart(ch, |ch| - 1, c)
    ensures var last := Zeroed(offer, c);
            && Row(last, columns) < |ch| && RunEnd(ch, Row(last, columns), c) == |ch|
            && last.less[c] == RunStart(ch, |ch| - 1, c) && last.equal[c] == |ch| - RunStart(ch, |ch| - 1, c)
  {
    OpenRun(ch, Row(offer, columns), c);
  }

  lemma KeptStandApart(was: seq<Sample>, least: nat, last: Sample, columns: nat, c: Column)
    requires columns <= MAX_COLUMNS && |was| <= SAMPLE_COUNT && (|was| == SAMPLE_COUNT ==> least < |was|)
    requires OnePerRun(was) && MarksBelow(was, columns, c + 1) && !last.periodic && last.column == c
             && last.equal[c] != 0
    requires forall i | 0 <= i < |was| && !was[i].periodic && was[i].column == c :: was[i].less[c] != last.less[c]
    ensures OnePerRun(Evicted(was, least) + [last]) && MarksBelow(Evicted(was, least) + [last], columns, c)
  {
  }

  /** A scheduled row takes a place but stands for no run. */
  lemma ScheduledIsFair(ch: seq<nat>, was: seq<Sample>, least: nat, last: Sample, columns: nat, bound: nat)
    requires 1 <= columns <= MAX_COLUMNS && |was| <= SAMPLE_COUNT && (|was| == SAMPLE_COUNT ==> Least(was, least))
    requires last.periodic && Fairly(ch, was, columns, bound)
    ensures Fairly(ch, Evicted(was, least) + [last], columns, bound)
  {
    hide AllFair;
    AppendSucceeds(was, least, last);
    FairSteps(ch, was, Evicted(was, least) + [last], least, columns, bound);
  }

  /** Filling in counts changes no standing. */
  lemma FilledIsFair(ch: seq<nat>, was: seq<Sample>, now: seq<Sample>, least: nat, current: Sample, columns: nat,
                     changed: nat)
    requires 1 <= columns <= MAX_COLUMNS && changed <= columns && Fairly(ch, was, columns, changed)
    requires |was| == SAMPLE_COUNT ==> Least(was, least)
    requires |now| == |was| && forall i | 0 <= i < |now| :: now[i] == Filled(was[i], current, changed, columns)
    ensures Fairly(ch, now, columns, changed) && (|now| == SAMPLE_COUNT ==> Least(now, least))
  {
    hide AllFair, Least;
    forall i | 0 <= i < |was| ensures IsHeir(now[i], was[i]) {
      FilledIsHeir(was[i], current, changed, columns);
    }
    HeirsSucceed(was, now, least);
    FairSteps(ch, was, now, least, columns, changed);
    FilledKeepsLeast(was, now, least, current, columns, changed);
  }

  lemma FilledOutline(was: seq<Sample>, now: seq<Sample>, current: Sample, columns: nat, changed: nat)
    requires |now| == |was| && forall i | 0 <= i < |now| :: now[i] == Filled(was[i], current, changed, columns)
    ensures forall i | 0 <= i < |was| :: SameOutline(was[i], now[i])
  {
  }

  lemma FilledIsHeir(s: Sample, current: Sample, changed: nat, columns: nat)
    requires columns <= MAX_COLUMNS && (!s.periodic ==> s.equal[s.column] != 0)
    ensures IsHeir(Filled(s, current, changed, columns), s)
    ensures Filled(s, current, changed, columns).column == s.column
    ensures !s.periodic ==> Filled(s, current, changed, columns).equal[s.column] == s.equal[s.column]
  {
  }

  lemma FilledKeepsLeast(was: seq<Sample>, now: seq<Sample>, least: nat, current: Sample, columns: nat, changed: nat)
    requires columns <= MAX_COLUMNS && MarksBelow(was, columns, changed)
    requires |was| == SAMPLE_COUNT ==> Least(was, least)
    requires |now| == |was| && forall i | 0 <= i < |now| :: now[i] == Filled(was[i], current, changed, columns)
    ensures |now| == SAMPLE_COUNT ==> Least(now, least)
  {
    forall i | 0 <= i < |was|
      ensures now[i].column == was[i].column && now[i].periodic == was[i].periodic
      ensures !was[i].periodic ==> now[i].equal[now[i].column] == was[i].equal[was[i].column]
    {
      FilledIsHeir(was[i], current, changed, columns);
    }
  }

  /** With every count filled in, the stream may go on. */
  lemma FairExtends(ch: seq<nat>, samples: seq<Sample>, columns: nat, f: nat)
    requires 1 <= columns <= MAX_COLUMNS && f < columns && Fairly(ch, samples, columns, f)
    requires forall i, c | 0 <= i < |samples| && f <= c < columns :: samples[i].equal[c] != 0
    ensures Fairly(ch + [f], samples, columns, columns - 1)
  {
    hide FairAt;
    var ch' := ch + [f];
    forall r: nat, c: nat | r < |ch'| && c + 1 < columns && (c >= columns - 1 || RunEnd(ch', r, c) < |ch'|)
      ensures FairAt(ch', samples, columns, r, c)
    {
      NewestIsOpen(ch', c);
      Extend(ch, f, r, c);
      assert FairAt(ch, samples, columns, r, c);
      SameRunLater(ch, ch', samples, columns, r, c);
    }
  }

  lemma NewestIsOpen(ch: seq<nat>, c: nat)
    requires ch != []
    ensures RunEnd(ch, |ch| - 1, c) == |ch|
  {
  }

  lemma SameRunLater(ch: seq<nat>, ch': seq<nat>, samples: seq<Sample>, columns: nat, r: nat, c: nat)
    requires 1 <= columns <= MAX_COLUMNS && r < |ch| && r < |ch'|
    requires RunStart(ch', r, c) == RunStart(ch, r, c) && RunEnd(ch', r, c) == RunEnd(ch, r, c)
    requires FairAt(ch, samples, columns, r, c)
    ensures FairAt(ch', samples, columns, r, c)
  {
    hide RunStart, RunEnd, Outweighs;
    if StandsIn(ch, samples, columns, r, c) {
      var i :| 0 <= i < |samples| && InRun(ch, r, c, Row(samples[i], columns))
               && (samples[i].periodic || Outweighs(samples[i], RunLength(ch, r, c), c));
      assert InRun(ch', r, c, Row(samples[i], columns));
    }
  }

  lemma NothingIsFair(ch: seq<nat>, columns: nat, bound: nat)
    requires 1 <= columns <= MAX_COLUMNS && |ch| <= 1 && (|ch| == 1 ==> bound >= columns - 1)
    ensures Fairly(ch, [], columns, bound)
  {
  }

  // ---------------------------------------------------------------- what is published

  /** Number of distinct prefixes up to field `c` in the stream, at least one. */
  ghost function DistinctPrefixes(ch: seq<nat>, c: nat): (d: nat)
    ensures d >= 1
  {
    if ch == [] then 1 else RunsBefore(ch, |ch| - 1, c) + 1
  }

  /** Rows per distinct prefix, rounded up, except that up to one tenth above one counts as one. */
  ghost function Average(rows: nat, distinct: nat): nat
    requires distinct > 0
  {
    if distinct <= rows && 10 * rows <= 11 * distinct then 1 else (rows + distinct - 1) / distinct
  }

  /** The row count, then the rows per distinct prefix of each key field. */
  ghost function Stat1Numbers(ch: seq<nat>, keyColumns: nat): seq<nat> {
    if keyColumns == 0 then [|ch|]
    else Stat1Numbers(ch, keyColumns - 1) + [Average(|ch|, DistinctPrefixes(ch, keyColumns - 1))]
  }

  lemma AverageMeans(rows: nat, distinct: nat, average: nat)
    requires distinct > 0
    requires var a := rows / distinct + (if rows % distinct != 0 then 1 else 0);
             average == if a == 2 && rows * 10 <= distinct * 11 then 1 else a
    ensures average == Average(rows, distinct)
  {
    var q, m := rows / distinct, rows % distinct;
    assert rows == q * distinct + m;
    if m == 0 {
      assert (rows + distinct - 1) / distinct == q by { Quotient(rows + distinct - 1, distinct, q); }
    } else {
      assert (rows + distinct - 1) / distinct == q + 1 by { Quotient(rows + distinct - 1, distinct, q + 1); }
    }
    if distinct <= rows && 10 * rows <= 11 * distinct {
      assert q == 1 by { Quotient(rows, distinct, 1); }
    }
    if q == 1 && m > 0 {
      assert distinct <= rows;
    }
  }

  lemma Quotient(n: nat, d: nat, q: nat)
    requires d > 0 && q * d <= n < (q + 1) * d
    ensures n / d == q
  {
    var r := n / d;
    assert r * d <= n < r * d + d;
    assert r < q ==> (r + 1) * d <= q * d;
    assert r > q ==> (q + 1) * d <= r * d;
  }

  lemma DistinctSoFar(ch: seq<nat>, wit: seq<nat>, now: Sample, columns: nat, c: nat)
    requires CurrentOk(ch, wit, now, columns) && c < columns
    ensures ch != [] && now.distinctLess[c] + 1 == DistinctPrefixes(ch, c)
  {
  }

  function Publish(s: Sample, columns: nat): IndexSample
    requires columns <= MAX_COLUMNS
  {
    IndexSample(s.witnessId, s.equal[..columns], s.less[..columns], s.distinctLess[..columns])
  }

  ghost function PublishAll(samples: seq<Sample>, columns: nat): seq<IndexSample>
    requires columns <= MAX_COLUMNS
  {
    seq(|samples|, i requires 0 <= i < |samples| => Publish(samples[i], columns))
  }

  /** A published sample names a row of the stream and counts exactly, for each of its prefixes,
      the rows with the same prefix, the rows before them, and the distinct prefixes before. */
  ghost predicate ExactAt(ch: seq<nat>, wit: seq<nat>, columns: nat, s: IndexSample, r: nat) {
    && |wit| == |ch| && r < |ch| && s.witnessId == wit[r]
    && |s.equal| == |s.less| == |s.distinctLess| == columns
    && forall c | 0 <= c < columns ::
         s.equal[c] == RunLength(ch, r, c) && s.less[c] == RunStart(ch, r, c)
             && s.distinctLess[c] == RunsBefore(ch, r, c)
  }

  ghost predicate Published(ch: seq<nat>, wit: seq<nat>, columns: nat, keyColumns: nat, full: FullIndexStatistics) {
    && full.stat1 == Stat1Numbers(ch, keyColumns)
    && PublishedExactly(ch, wit, columns, full.samples)
    && Covers(|ch|, |ch| / 9 + 1, columns, full.samples)
    && RunsAreSampled(ch, columns, |ch| / 9 + 1, full.samples)
  }

  ghost predicate RunsAreSampled(ch: seq<nat>, columns: nat, interval: nat, samples: seq<IndexSample>) {
    exists chosen: seq<nat> :: Represents(ch, columns, interval, samples, chosen)
  }

  ghost predicate IsScheduled(row: nat, interval: nat) {
    exists k: nat :: 1 <= k && row == ScheduledRow(k, interval)
  }

  /** Which runs are sampled.  Each published row that is not scheduled stands for its run at the field `chosen`
      for it, no two for the same run.  A run without a published row is only found when all 24 places are
      taken, and then every run that is stood for is longer, or as long and of a prefix not longer. */
  ghost predicate Represents(ch: seq<nat>, columns: nat, interval: nat, samples: seq<IndexSample>, chosen: seq<nat>) {
    && columns >= 1 && |chosen| == |samples|
    && (forall i | 0 <= i < |samples| :: |samples[i].equal| == |samples[i].less| == columns)
    && (forall i | 0 <= i < |samples| && !IsScheduled(samples[i].less[columns - 1], interval) ::
          chosen[i] + 1 < columns)
    && (forall i, j | 0 <= i < j < |samples| && !IsScheduled(samples[i].less[columns - 1], interval)
                      && !IsScheduled(samples[j].less[columns - 1], interval) && chosen[i] == chosen[j] ::
          samples[i].less[chosen[i]] != samples[j].less[chosen[j]])
    && forall r: nat, c: nat | r < |ch| && c + 1 < columns ::
         || HasSample(ch, columns, samples, r, c)
         || OthersCount(columns, interval, samples, chosen, RunLength(ch, r, c), c)
  }

  ghost predicate HasSample(ch: seq<nat>, columns: nat, samples: seq<IndexSample>, r: nat, c: nat)
    requires columns >= 1 && r < |ch| && forall i | 0 <= i < |samples| :: |samples[i].less| == columns
  {
    exists i :: 0 <= i < |samples| && InRun(ch, r, c, samples[i].less[columns - 1])
  }

  ghost predicate OthersCount(columns: nat, interval: nat, samples: seq<IndexSample>, chosen: seq<nat>, length: nat,
                              c: nat)
    requires columns >= 1 && |chosen| == |samples|
    requires forall i | 0 <= i < |samples| :: |samples[i].equal| == |samples[i].less| == columns
    requires forall i | 0 <= i < |samples| && !IsScheduled(samples[i].less[columns - 1], interval) ::
               chosen[i] + 1 < columns
  {
    && |samples| == SAMPLE_COUNT
    && forall i | 0 <= i < |samples| && !IsScheduled(samples[i].less[columns - 1], interval) ::
         samples[i].equal[chosen[i]] > length || (samples[i].equal[chosen[i]] == length && chosen[i] <= c)
  }

  lemma {:induction false} PeriodicRowIsListed(samples: seq<Sample>, columns: nat, i: nat)
    requires 1 <= columns <= MAX_COLUMNS && i < |samples| && samples[i].periodic
    ensures Row(samples[i], columns) in PeriodicRows(samples, columns)
  {
    if i < |samples| - 1 {
      PeriodicRowIsListed(samples[..|samples| - 1], columns, i);
    }
  }

  lemma PeriodicIsScheduled(samples: seq<Sample>, columns: nat, periods: nat, interval: nat, i: nat)
    requires 1 <= columns <= MAX_COLUMNS && i < |samples| && samples[i].periodic
    requires PeriodicRows(samples, columns) == Scheduled(periods, interval)
    ensures IsScheduled(Row(samples[i], columns), interval)
  {
    PeriodicRowIsListed(samples, columns, i);
    var k :| 0 <= k < periods && Scheduled(periods, interval)[k] == Row(samples[i], columns);
    assert Row(samples[i], columns) == ScheduledRow(k + 1, interval);
  }

  /** The columns the samples stand for when the stream has ended. */
  ghost function ChosenColumns(samples: seq<Sample>): seq<nat> {
    seq(|samples|, i requires 0 <= i < |samples| => samples[i].column)
  }

  lemma FairIsPublished(ch: seq<nat>, wit: seq<nat>, samples: seq<Sample>, columns: nat, periods: nat, interval: nat)
    requires 1 <= columns <= MAX_COLUMNS && AllStored(ch, wit, samples, columns, 0) && Fairly(ch, samples, columns, 0)
    requires PeriodicRows(samples, columns) == Scheduled(periods, interval)
    ensures Represents(ch, columns, interval, PublishAll(samples, columns), ChosenColumns(samples))
  {
    hide PeriodicRows, FairAt, IsScheduled, RunLength, InRun;
    var published, chosen := PublishAll(samples, columns), ChosenColumns(samples);
    forall i | 0 <= i < |samples| && !IsScheduled(published[i].less[columns - 1], interval)
      ensures !samples[i].periodic && chosen[i] + 1 < columns
      ensures published[i].less[chosen[i]] == samples[i].less[samples[i].column]
      ensures published[i].equal[chosen[i]] == samples[i].equal[samples[i].column]
    {
      if samples[i].periodic {
        PeriodicIsScheduled(samples, columns, periods, interval, i);
      }
      assert StoredOk(ch, wit, samples[i], columns, 0);
    }
    forall r: nat, c: nat | r < |ch| && c + 1 < columns
      ensures HasSample(ch, columns, published, r, c)
              || OthersCount(columns, interval, published, chosen, RunLength(ch, r, c), c)
    {
      assert FairAt(ch, samples, columns, r, c);
      FairSample(ch, samples, columns, r, c);
    }
  }

  lemma FairSample(ch: seq<nat>, samples: seq<Sample>, columns: nat, r: nat, c: nat)
    requires 1 <= columns <= MAX_COLUMNS && r < |ch| && FairAt(ch, samples, columns, r, c)
    ensures HasSample(ch, columns, PublishAll(samples, columns), r, c) || Crowded(samples, RunLength(ch, r, c), c)
  {
    hide Crowded, RunLength, RunStart, RunEnd;
    if StandsIn(ch, samples, columns, r, c) {
      var i :| 0 <= i < |samples| && InRun(ch, r, c, Row(samples[i], columns))
               && (samples[i].periodic || Outweighs(samples[i], RunLength(ch, r, c), c));
      assert PublishAll(samples, columns)[i].less[columns - 1] == Row(samples[i], columns);
    }
  }

  /** At most 24 samples, in stream order, each exact. */
  ghost predicate PublishedExactly(ch: seq<nat>, wit: seq<nat>, columns: nat, samples: seq<IndexSample>) {
    && |samples| <= SAMPLE_COUNT && columns >= 1
    && (forall i | 0 <= i < |samples| :: |samples[i].less| == columns
                                         && ExactAt(ch, wit, columns, samples[i], samples[i].less[columns - 1]))
    && forall i, j | 0 <= i < j < |samples| :: samples[i].less[columns - 1] < samples[j].less[columns - 1]
  }

  /** Every ninth of the stream is represented: the last row of each full interval is a sample. */
  ghost predicate Covers(rows: nat, interval: nat, columns: nat, samples: seq<IndexSample>)
    requires columns >= 1 && forall i | 0 <= i < |samples| :: |samples[i].less| == columns
  {
    forall k: nat | 1 <= k && ScheduledRow(k, interval) < rows ::
      exists i :: 0 <= i < |samples| && samples[i].less[columns - 1] == ScheduledRow(k, interval)
  }

  lemma PublishedSamples(ch: seq<nat>, wit: seq<nat>, samples: seq<Sample>, columns: nat)
    requires 1 <= columns <= MAX_COLUMNS && |samples| <= SAMPLE_COUNT && ChangesBelow(ch, columns)
    requires AllStored(ch, wit, samples, columns, 0) && Increasing(samples, columns)
    requires forall i, c | 0 <= i < |samples| && 0 <= c < columns :: samples[i].equal[c] != 0
    ensures PublishedExactly(ch, wit, columns, PublishAll(samples, columns))
  {
    forall i | 0 <= i < |samples|
      ensures ExactAt(ch, wit, columns, Publish(samples[i], columns), Row(samples[i], columns))
    {
      var s, r := samples[i], Row(samples[i], columns);
      assert StoredOk(ch, wit, s, columns, 0);
      StartIsUnique(ch, r, r, columns - 1);
      EndIsUnique(ch, r, r + 1, columns - 1);
      assert forall c | 0 <= c < columns - 1 :: s.equal[c] == RunLength(ch, r, c);
    }
  }

  lemma {:induction false} PeriodicRowIsStored(samples: seq<Sample>, columns: nat, k: nat)
    requires 1 <= columns <= MAX_COLUMNS && k < |PeriodicRows(samples, columns)|
    ensures exists s :: s in samples && Row(s, columns) == PeriodicRows(samples, columns)[k]
  {
    var init := samples[..|samples| - 1];
    if k < |PeriodicRows(init, columns)| {
      PeriodicRowIsStored(init, columns, k);
      var s :| s in init && Row(s, columns) == PeriodicRows(init, columns)[k];
      assert s in samples;
    } else {
      assert samples[|samples| - 1] in samples;
    }
  }

  lemma ScheduleIsPublished(samples: seq<Sample>, periods: nat, interval: nat, rows: nat, columns: nat)
    requires 1 <= columns <= MAX_COLUMNS
    requires PeriodicRows(samples, columns) == Scheduled(periods, interval)
    requires rows < (periods + 1) * interval
    ensures Covers(rows, interval, columns, PublishAll(samples, columns))
  {
    hide PeriodicRows;
    var published := PublishAll(samples, columns);
    forall k: nat | 1 <= k && ScheduledRow(k, interval) < rows
      ensures exists i :: 0 <= i < |published| && published[i].less[columns - 1] == ScheduledRow(k, interval)
    {
      assert k > periods ==> (periods + 1) * interval <= k * interval;
      PeriodicRowIsStored(samples, columns, k - 1);
      var s :| s in samples && Row(s, columns) == ScheduledRow(k, interval);
      var i :| 0 <= i < |samples| && samples[i] == s;
      assert published[i].less[columns - 1] == ScheduledRow(k, interval);
    }
  }

  method AverageRows(rows: nat, distinct: nat) returns (average: nat)
    requires distinct > 0
    ensures average == Average(rows, distinct)
  {
    average := rows / distinct + (if rows % distinct != 0 then 1 else 0);
    if average == 2 && rows * 10 <= distinct * 11 {
      average := 1;
    }
    AverageMeans(rows, distinct, average);
  }

  // ---------------------------------------------------------------- the accumulator

  method FillSample(old': Sample, from: Sample, changed: nat, columns: nat) returns (s: Sample)
    requires changed <= columns <= MAX_COLUMNS
    ensures s == Filled(old', from, changed, columns)
  {
    s := old';
    for column := changed to columns
      invariant s == Filled(old', from, changed, column)
    {
      if s.equal[column] == 0 {
        s := s.(equal := s.equal[column := from.equal[column]]);
      }
    }
  }

  method Advance(old': Sample, f: nat, columns: nat) returns (s: Sample)
    requires f <= columns <= MAX_COLUMNS
    ensures s == Advanced(old', f, columns)
  {
    s := old';
    for column := 0 to f
      invariant s.(equal := old'.equal) == old'
      invariant forall c | 0 <= c < MAX_COLUMNS :: s.equal[c] == if c < column then old'.equal[c] + 1 else old'.equal[c]
    {
      s := s.(equal := s.equal[column := s.equal[column] + 1]);
    }
    for column := f to columns
      invariant s == Sample(s.equal, s.less, s.distinctLess, old'.witnessId, old'.periodic, old'.column, old'.hash)
      invariant forall c | 0 <= c < column :: s.equal[c] == Advanced(old', f, columns).equal[c]
      invariant forall c | 0 <= c < column :: s.less[c] == Advanced(old', f, columns).less[c]
      invariant forall c | 0 <= c < column :: s.distinctLess[c] == Advanced(old', f, columns).distinctLess[c]
      invariant forall c | column <= c < MAX_COLUMNS ::
        s.equal[c] == old'.equal[c] && s.less[c] == old'.less[c] && s.distinctLess[c] == old'.distinctLess[c]
    {
      s := s.(distinctLess := s.distinctLess[column := s.distinctLess[column] + 1]);
      s := s.(less := s.less[column := s.less[column] + s.equal[column]]);
      s := s.(equal := s.equal[column := 1]);
    }
  }

  datatype Search = Drop | At(index: nat) | None

  ghost function MarkedSet(samples: seq<Sample>, column: Column): set<nat> {
    set i | 0 <= i < |samples| && Marked(samples[i], column)
  }

  /** The best stored sample whose run at `column` is open; a periodic one blocks the search. */
  method FindUpgrade(samples: seq<Sample>, column: Column, columns: nat) returns (r: Search)
    requires columns <= MAX_COLUMNS
    ensures r.None? <==> MarkedSet(samples, column) == {}
    ensures r.Drop? <==> exists i :: i in MarkedSet(samples, column) && samples[i].periodic
    ensures r.At? ==> r.index in MarkedSet(samples, column)
                      && forall i | i in MarkedSet(samples, column) :: !Better(samples[i], samples[r.index], columns)
  {
    ghost var marked := MarkedSet(samples, column);
    r := Search.None;
    for index := |samples| downto 0
      invariant !r.Drop?
      invariant forall i | i in marked && index <= i :: !samples[i].periodic
      invariant r.At? ==> r.index in marked && index <= r.index
      invariant r.None? ==> forall i | i in marked :: i < index
      invariant r.At? ==> forall i | i in marked && index <= i :: !Better(samples[i], samples[r.index], columns)
    {
      if Marked(samples[index], column) {
        assert index in marked;
        if samples[index].periodic {
          return Drop;
        }
        if r.None? || Better(samples[index], samples[r.index], columns) {
          BetterIrreflexive(samples[index], columns);
          if r.At? {
            forall i | i in marked && index < i ensures !Better(samples[i], samples[index], columns) {
              if Better(samples[i], samples[index], columns) {
                BetterTransitive(samples[i], samples[index], samples[r.index], columns);
              }
            }
          }
          r := At(index);
        }
      }
    }
  }

  class IndexStatistics {
    const columns: nat
    const keyColumns: nat
    const expectedRows: nat
    var rows: nat
    var periodicInterval: nat
    var nextPeriodicRow: nat
    var random: nat
    var current: Sample
    var best: seq<Sample>
    var samples: seq<Sample>
    var minimum: nat
    var maximumEqualZero: nat

    // The stream so far and the number of scheduled rows in it.
    ghost var changes: seq<nat>
    ghost var witnesses: seq<nat>
    ghost var periods: nat

    /** The bounded sample array: when it is full, `minimum` names an evictable sample. */
    ghost predicate Bounded()
      reads this
    {
      && 1 <= columns <= MAX_COLUMNS && periodicInterval == expectedRows / 9 + 1
      && |samples| <= SAMPLE_COUNT
      && (|samples| == SAMPLE_COUNT ==> minimum < |samples| && Least(samples, minimum))
      && periods * periodicInterval <= expectedRows
    }

    ghost predicate Shape()
      reads this
    {
      && 1 <= keyColumns <= columns <= MAX_COLUMNS && expectedRows <= U64_MAX
      && rows == |changes| == |witnesses| <= expectedRows
      && ChangesBelow(changes, columns) && (rows > 0 ==> changes[0] == 0)
      && periodicInterval == expectedRows / 9 + 1
      && (rows > 0 ==> CurrentOk(changes, witnesses, current, columns))
      && (rows == 0 ==> current == ZERO_SAMPLE)
    }

    /** The stored samples while runs at `bound` and beyond are being closed. */
    ghost predicate Samples(bound: nat)
      requires Shape()
      reads this
    {
      && AllStored(changes, witnesses, samples, columns, bound)
      && NoZerosFrom(samples, columns, maximumEqualZero)
      && Increasing(samples, columns)
      && Bounded()
      && PeriodicRows(samples, columns) == Scheduled(periods, periodicInterval)
      && Fairly(changes, samples, columns, bound)
    }

    ghost predicate Bests(upTo: nat)
      requires Shape()
      reads this
    {
      AllBest(changes, witnesses, best, columns, upTo)
    }

    ghost predicate Schedule()
      reads this
    {
      && periods * periodicInterval <= rows < (periods + 1) * periodicInterval
      && nextPeriodicRow == if (periods + 1) * periodicInterval <= U64_MAX then (periods + 1) * periodicInterval else 0
    }

    /** Between calls of `Push`. */
    ghost predicate Valid()
      reads this
    {
      && Shape() && Schedule() && Samples(columns - 1) && (rows == 0 ==> samples == [])
      && Bests(if rows == 0 then 0 else columns)
    }

    constructor (columns: nat, keyColumns: nat, expectedRows: nat, seed: nat)
      requires 1 <= keyColumns <= columns <= MAX_COLUMNS && expectedRows <= U64_MAX
      ensures Valid() && changes == [] && witnesses == []
      ensures this.columns == columns && this.keyColumns == keyColumns && this.expectedRows == expectedRows
    {
      this.columns, this.keyColumns, this.expectedRows := columns, keyColumns, expectedRows;
      rows := 0;
      periodicInterval := expectedRows / (SAMPLE_COUNT / 3 + 1) + 1;
      nextPeriodicRow := expectedRows / (SAMPLE_COUNT / 3 + 1) + 1;
      random := seed;
      current := ZERO_SAMPLE;
      best := seq(MAX_COLUMNS, c requires 0 <= c < MAX_COLUMNS => ZERO_SAMPLE.(column := c));
      samples := [];
      minimum := 0;
      maximumEqualZero := 0;
      changes, witnesses, periods := [], [], 0;
      NothingIsFair([], columns, columns - 1);
    }

    /** `columns` counts the appended unique fields too; `keyColumns` leaves them out. */
    static method New(columns: nat, keyColumns: nat, expectedRows: nat, seed: nat) returns (r: Result<IndexStatistics>)
      requires expectedRows <= U64_MAX
      ensures r.Ok? <==> 1 <= keyColumns <= columns <= MAX_COLUMNS
      ensures r.Ok? ==> fresh(r.value) && r.value.Valid() && r.value.changes == [] && r.value.witnesses == []
      ensures r.Ok? ==> r.value.columns == columns && r.value.keyColumns == keyColumns
                        && r.value.expectedRows == expectedRows
    {
      if !(1 <= columns <= MAX_COLUMNS) || keyColumns == 0 || keyColumns > columns {
        return Err("invalid offline index statistics column count");
      }
      var statistics := new IndexStatistics(columns, keyColumns, expectedRows, seed);
      return Ok(statistics);
    }

    /** Chooses the sample to evict next: no other evictable sample is worse. */
    method FindMinimum()
      requires 1 <= columns <= MAX_COLUMNS && periodicInterval == expectedRows / 9 + 1
      requires |samples| <= SAMPLE_COUNT && periods * periodicInterval <= expectedRows
      requires |PeriodicRows(samples, columns)| == periods
      modifies this`minimum
      ensures |samples| == SAMPLE_COUNT ==>
                && minimum < |samples| && !samples[minimum].periodic
                && forall i | 0 <= i < |samples| && !samples[i].periodic ::
                   !Better(samples[minimum], samples[i], columns)
      ensures |samples| == SAMPLE_COUNT ==> Least(samples, minimum)
      ensures |samples| != SAMPLE_COUNT ==> minimum == old(minimum)
    {
      if |samples| != SAMPLE_COUNT {
        return;
      }
      var found, least := false, 0;
      for index := 0 to |samples|
        invariant !found ==> forall i | 0 <= i < index :: samples[i].periodic
        invariant found ==> least < index && !samples[least].periodic
        invariant found ==> forall i | 0 <= i < index && !samples[i].periodic ::
                            !Better(samples[least], samples[i], columns)
      {
        if !samples[index].periodic && (!found || Better(samples[least], samples[index], columns)) {
          if found {
            forall i | 0 <= i < index && !samples[i].periodic
              ensures !Better(samples[index], samples[i], columns)
            {
              if Better(samples[index], samples[i], columns) {
                BetterTransitive(samples[least], samples[index], samples[i], columns);
              }
            }
          }
          BetterIrreflexive(samples[index], columns);
          found, least := true, index;
        }
      }
      if !found {
        AllPeriodic(samples, columns);
        ScheduleIsShort(periods, expectedRows);
        assert false;
      }
      minimum := least;
      NotBetterIsNotLighter(samples, least, columns);
    }

    /** Adds a sample, merges it into a stored one whose run at the new sample's field is still
        open, or drops it in favour of a periodic one. */
    method Insert(new': Sample, equalZero: nat)
      requires Bounded() && equalZero < columns
      requires |PeriodicRows(samples, columns)| == if new'.periodic then periods - 1 else periods
      modifies this`samples, this`minimum, this`maximumEqualZero
      ensures Inserted(old(samples), old(minimum), new', equalZero, columns, samples)
      ensures maximumEqualZero == Max(equalZero, old(maximumEqualZero))
      ensures Bounded()
      ensures PeriodicRows(samples, columns)
              == old(PeriodicRows(samples, columns)) + if new'.periodic then [Row(new', columns)] else []
    {
      maximumEqualZero := Max(equalZero, maximumEqualZero);
      if !new'.periodic {
        var search := FindUpgrade(samples, new'.column, columns);
        match search {
          case Drop => return;
          case At(upgrade) =>
            Upgrade(new', upgrade);
            return;
          case None =>
        }
      }
      Append(new', equalZero);
    }

    method Upgrade(new': Sample, upgrade: nat)
      requires Bounded() && upgrade < |samples|
      requires |PeriodicRows(samples, columns)| == periods
      modifies this`samples, this`minimum
      ensures samples == old(samples)[upgrade := Upgraded(old(samples)[upgrade], new')]
      ensures Bounded() && PeriodicRows(samples, columns) == old(PeriodicRows(samples, columns))
    {
      ghost var was := samples;
      samples := samples[upgrade := Upgraded(samples[upgrade], new')];
      OutlineKeepsPeriodic(was, samples, columns);
      FindMinimum();
    }

    method Append(new': Sample, equalZero: nat)
      requires Bounded() && equalZero < columns
      requires |PeriodicRows(samples, columns)| == if new'.periodic then periods - 1 else periods
      modifies this`samples, this`minimum
      ensures samples == Evicted(old(samples), old(minimum)) + [Zeroed(new', equalZero)]
      ensures Bounded()
      ensures PeriodicRows(samples, columns)
              == old(PeriodicRows(samples, columns)) + if new'.periodic then [Row(new', columns)] else []
    {
      if |samples| == SAMPLE_COUNT {
        EvictionKeepsPeriodic(samples, minimum, columns);
        samples := samples[..minimum] + samples[minimum + 1..];
      }
      ghost var last := Zeroed(new', equalZero);
      assert [last][..0] == [];
      PeriodicRowsOfConcat(samples, [last], columns);
      samples := samples + [Zeroed(new', equalZero)];
      FindMinimum();
    }

    /** Closes every run at `changed` and beyond: offers the best row of each as a sample, longest
        prefix first, then back-fills the counts of samples whose runs close. */
    method PushPrevious(changed: nat)
      requires Shape() && rows > 0 && changed < columns
      requires Samples(columns - 1) && Bests(columns)
      modifies this`best, this`samples, this`minimum, this`maximumEqualZero
      ensures Shape() && Samples(changed) && Bests(changed)
      ensures forall i, c | 0 <= i < |samples| && changed <= c < columns :: samples[i].equal[c] != 0
    {
      hide BestOk, StoredOk, CurrentOk, Increasing, PeriodicRows, Scheduled, AllStored, Fairly, Least;
      for column := columns - 1 downto changed
        invariant Shape() && Samples(column) && Bests(column)
      {
        OfferBest(column);
      }
      if changed < maximumEqualZero {
        BackFill(changed);
        maximumEqualZero := changed;
      }
    }

    method OfferBest(column: Column)
      requires Shape() && rows > 0 && column < columns - 1
      requires Samples(column + 1) && Bests(column + 1)
      modifies this`best, this`samples, this`minimum, this`maximumEqualZero
      ensures Shape() && Samples(column) && Bests(column)
    {
      hide BestOk, StoredOk, CurrentOk, Increasing, PeriodicRows, Scheduled, Fairly, Least, AllStored, NoZerosFrom,
           Better, ClosingOk, Inserted;
      ClosingKeepsBest(changes, witnesses, best, current, columns, column);
      best := best[column := best[column].(equal := best[column].equal[column := current.equal[column]])];
      ghost var was, least, limit := samples, minimum, maximumEqualZero;
      if |samples| < SAMPLE_COUNT || Better(best[column], samples[minimum], columns) {
        Insert(best[column], column);
        InsertKeepsSamples(changes, witnesses, was, least, best[column], column, columns, samples);
        InsertKeepsLimit(was, least, best[column], column, columns, samples, limit);
        InsertIsFair(changes, witnesses, was, least, best[column], columns, column, samples);
      } else {
        RejectedIsFair(changes, witnesses, samples, minimum, best[column], columns, column);
        StoredWeakens(changes, witnesses, samples, columns, column + 1, column);
      }
    }

    /** Replaces every remaining mark at `changed` and beyond by the count of the run that closes. */
    method BackFill(changed: nat)
      requires Shape() && rows > 0 && changed < columns && Samples(changed)
      modifies this`samples
      ensures |samples| == |old(samples)|
      ensures forall i | 0 <= i < |samples| :: samples[i] == Filled(old(samples)[i], current, changed, columns)
      ensures AllStored(changes, witnesses, samples, columns, changed) && Increasing(samples, columns) && Bounded()
      ensures PeriodicRows(samples, columns) == Scheduled(periods, periodicInterval)
      ensures NoZerosFrom(samples, columns, changed) && Fairly(changes, samples, columns, changed)
    {
      hide Fairly, Least, CurrentOk, PeriodicRows, Scheduled, Increasing, AllStored, NoZerosFrom, Filled;
      ghost var was := samples;
      for i := 0 to |samples|
        invariant |samples| == |was|
        invariant forall k | 0 <= k < i :: samples[k] == Filled(was[k], current, changed, columns)
        invariant forall k | i <= k < |was| :: samples[k] == was[k]
      {
        var s := FillSample(samples[i], current, changed, columns);
        samples := samples[i := s];
      }
      FilledOutline(was, samples, current, columns, changed);
      OutlineKeepsPeriodic(was, samples, columns);
      OutlineKeepsOrder(was, samples, columns);
      FillKeepsSamples(changes, witnesses, was, current, columns, changed, samples);
      FilledIsFair(changes, was, samples, minimum, current, columns, changed);
    }

    /** One key of the sorted stream. */
    method Push(firstChanged: nat, witnessId: nat) returns (r: Result<()>)
      requires Valid()
      modifies this
      ensures Valid()
      ensures r.Ok? <==> firstChanged < columns && old(rows) < expectedRows && (old(rows) == 0 ==> firstChanged == 0)
      ensures r.Ok? ==> changes == old(changes) + [firstChanged] && witnesses == old(witnesses) + [witnessId]
      ensures r.Err? ==> changes == old(changes) && witnesses == old(witnesses) && samples == old(samples)
    {
      hide BestOk, StoredOk, CurrentOk, Increasing, PeriodicRows, Fairly, Least;
      if firstChanged >= columns || rows >= expectedRows {
        return Err("invalid offline index statistics stream");
      }
      if rows == 0 && firstChanged != 0 {
        return Err("first offline index statistics key must change field zero");
      }
      Accumulate(firstChanged, witnessId);
      Periodic();
      RefreshBest(firstChanged, old(changes), old(witnesses), witnessId);
      return Ok(());
    }

    /** The counters of the newest row; runs that it ends are closed first. */
    method Accumulate(f: nat, witnessId: nat)
      requires Valid() && f < columns && rows < expectedRows && (rows == 0 ==> f == 0)
      modifies this`current, this`best, this`samples, this`minimum, this`maximumEqualZero
      modifies this`rows, this`random, this`changes, this`witnesses
      ensures Shape() && Samples(columns - 1)
      ensures rows == old(rows) + 1 && changes == old(changes) + [f] && witnesses == old(witnesses) + [witnessId]
      ensures forall s | s in samples :: Row(s, columns) < rows - 1
      ensures AllBest(old(changes), old(witnesses), best, columns, f)
    {
      hide BestOk, StoredOk, CurrentOk, Increasing, PeriodicRows, BeforeExact, Scheduled, Fairly, Least;
      if rows == 0 {
        current := current.(equal := seq(columns, _ => 1) + current.equal[columns..]);
        NoSamples(changes + [f], witnesses + [witnessId], columns, maximumEqualZero);
        NothingIsFair(changes + [f], columns, columns - 1);
      } else {
        PushPrevious(f);
        SamplesExtend(changes, witnesses, samples, columns, f, witnessId);
        FairExtends(changes, samples, columns, f);
        current := Advance(current, f, columns);
      }
      var hash := NextHash();
      NextRow(old(current), f, witnessId, hash);
    }

    /** Counts the new row; the samples already hold for the longer stream. */
    method NextRow(ghost previous: Sample, f: nat, witnessId: nat, hash: nat)
      requires 1 <= keyColumns <= columns <= MAX_COLUMNS && expectedRows <= U64_MAX
               && rows == |changes| == |witnesses| < expectedRows
      requires ChangesBelow(changes, columns) && (rows > 0 ==> changes[0] == 0) && (rows == 0 ==> f == 0) && f < columns
      requires periodicInterval == expectedRows / 9 + 1 && Bounded()
      requires rows == 0 ==> current == ZERO_SAMPLE.(equal := seq(columns, _ => 1) + ZERO_SAMPLE.equal[columns..])
      requires rows > 0 ==> CurrentOk(changes, witnesses, previous, columns)
                            && current == Advanced(previous, f, columns)
      requires AllStored(changes + [f], witnesses + [witnessId], samples, columns, columns - 1)
      requires NoZerosFrom(samples, columns, maximumEqualZero) && Increasing(samples, columns)
      requires PeriodicRows(samples, columns) == Scheduled(periods, periodicInterval)
      requires Fairly(changes + [f], samples, columns, columns - 1)
      modifies this`current, this`rows, this`changes, this`witnesses
      ensures Shape() && Samples(columns - 1)
      ensures rows == old(rows) + 1 && changes == old(changes) + [f] && witnesses == old(witnesses) + [witnessId]
    {
      hide BestOk, StoredOk, CurrentOk, Increasing, PeriodicRows, BeforeExact, Scheduled, AllStored, NoZerosFrom,
           Fairly, Least;
      if rows == 0 {
        FirstRowOk(columns, witnessId, hash);
        assert changes + [f] == [0] && witnesses + [witnessId] == [witnessId];
      } else {
        AdvanceOk(changes, witnesses, previous, columns, f, witnessId, hash);
      }
      rows := rows + 1;
      changes, witnesses := changes + [f], witnesses + [witnessId];
      current := current.(witnessId := witnessId, hash := hash);
    }

    method NextHash() returns (hash: nat)
      modifies this`random
      ensures hash == random == (old(random) * 1103515245 + 12345) % 0x1_0000_0000
    {
      random := (random * 1103515245 + 12345) % 0x1_0000_0000;
      hash := random;
    }

    /** Stores the newest row when the schedule asks for it. */
    method Periodic()
      requires Shape() && rows > 0 && Samples(columns - 1)
      requires forall s | s in samples :: Row(s, columns) < rows - 1
      requires periods * periodicInterval < rows <= (periods + 1) * periodicInterval
      requires nextPeriodicRow == if (periods + 1) * periodicInterval <= U64_MAX then (periods + 1) * periodicInterval
               else 0
      modifies this`samples, this`minimum, this`maximumEqualZero, this`current, this`nextPeriodicRow, this`periods
      ensures Shape() && Schedule() && Samples(columns - 1)
    {
      hide BestOk, StoredOk, CurrentOk, Increasing, PeriodicRows, Scheduled, AllStored, NoZerosFrom, Fairly, Least;
      PeriodEnds(periods, periodicInterval);
      if rows == nextPeriodicRow {
        nextPeriodicRow := if nextPeriodicRow + periodicInterval <= U64_MAX then nextPeriodicRow + periodicInterval
            else 0;
        StorePeriodic();
      }
    }

    method StorePeriodic()
      requires Shape() && rows > 0 && Samples(columns - 1)
      requires forall s | s in samples :: Row(s, columns) < rows - 1
      requires rows == (periods + 1) * periodicInterval
      modifies this`samples, this`minimum, this`maximumEqualZero, this`current, this`periods
      ensures Shape() && Samples(columns - 1) && periods == old(periods) + 1
    {
      hide BestOk, StoredOk, CurrentOk, Increasing, AllStored, NoZerosFrom, PeriodicRows, Scheduled, Fairly, Least;
      NextScheduled(periods, periodicInterval);
      ghost var was, least, limit := samples, minimum, maximumEqualZero;
      CurrentIgnoresColumn(changes, witnesses, current, columns, 0);
      current := current.(periodic := true, column := 0);
      periods := periods + 1;
      Insert(current, columns - 1);
      PeriodicKeepsSamples(changes, witnesses, was, least, current, columns);
      InsertKeepsLimit(was, least, current, columns - 1, columns, samples, limit);
      ScheduledIsFair(changes, was, least, Zeroed(current, columns - 1), columns, columns - 1);
      current := current.(periodic := false);
    }

    method RefreshBest(f: nat, ghost ch: seq<nat>, ghost wit: seq<nat>, ghost w: nat)
      requires Shape() && changes == ch + [f] && witnesses == wit + [w] && f < columns && rows > 0
      requires AllBest(ch, wit, best, columns, f)
      modifies this`best, this`current
      ensures Shape() && Bests(columns)
    {
      hide BestOk, StoredOk, CurrentOk, Fairly, Least, Foremost;
      for column := 0 to columns - 1
        invariant Shape() && |best| == MAX_COLUMNS
        invariant forall c | 0 <= c < columns - 1 :: best[c].column == c
        invariant forall c | 0 <= c < column ::
          BestOk(changes, witnesses, best[c], columns, c) && Foremost(changes, best[c], columns, c)
        invariant forall c | column <= c < f && c < columns - 1 ::
          BestOk(ch, wit, best[c], columns, c) && Foremost(ch, best[c], columns, c)
      {
        CurrentIgnoresColumn(changes, witnesses, current, columns, column);
        current := current.(column := column);
        BestStep(ch, wit, best[column], current, columns, column, f, w);
        if column >= f || BetterAfter(current, best[column], columns) {
          best := best[column := current];
        }
      }
    }

    /** The numbers of the STAT1 row: the row count, then the average run length per key field. */
    method Stat1() returns (stat1: seq<nat>)
      requires Valid()
      ensures stat1 == Stat1Numbers(changes, keyColumns)
    {
      hide BestOk, StoredOk, CurrentOk, Increasing, PeriodicRows, Average, AllStored, AllBest, NoZerosFrom, Fairly,
           Least;
      stat1 := [rows];
      for column := 0 to keyColumns
        invariant stat1 == Stat1Numbers(changes, column)
      {
        var distinct := current.distinctLess[column] + 1;
        if rows > 0 {
          DistinctSoFar(changes, witnesses, current, columns, column);
        }
        var average := AverageRows(rows, distinct);
        stat1 := stat1 + [average];
      }
    }

    /** Publishes the statistics of the complete stream. */
    method Finish() returns (r: Result<FullIndexStatistics>)
      requires Valid()
      modifies this
      ensures r.Ok? <==> old(rows) == expectedRows
      ensures r.Ok? ==> Published(old(changes), old(witnesses), columns, keyColumns, r.value)
    {
      hide BestOk, StoredOk, CurrentOk, Increasing, PeriodicRows, PublishedExactly, Covers, Fairly, Least,
           Represents;
      if rows != expectedRows {
        return Err("offline index statistics stream has an unexpected row count");
      }
      var stat1 := Stat1();
      ghost var ch, wit := changes, witnesses;
      if rows != 0 {
        PushPrevious(0);
      } else {
        NothingIsFair(ch, columns, 0);
      }
      var published := [];
      for i := 0 to |samples|
        invariant published == PublishAll(samples[..i], columns)
      {
        assert samples[..i + 1] == samples[..i] + [samples[i]];
        published := published + [Publish(samples[i], columns)];
      }
      assert samples[..|samples|] == samples;
      PublishedSamples(ch, wit, samples, columns);
      ScheduleIsPublished(samples, periods, periodicInterval, rows, columns);
      FairIsPublished(ch, wit, samples, columns, periods, periodicInterval);
      return Ok(FullIndexStatistics(stat1, published));
    }
  }
}
