/** The published counts as counts over the key tuples of the index, and the caller that feeds
    the sampler (`index_builder.rs`, `build_typed`). */
module KeyCounts {
  import opened Results
  import opened Runs
  import opened Sampler

  type Key = seq<int>

  /** `a` and `b` agree on fields `0..c`. */
  ghost predicate SameUpTo(a: Key, b: Key, c: nat)
    requires c < |a| && c < |b|
  {
    forall k | 0 <= k <= c :: a[k] == b[k]
  }

  /** `a` precedes `b` when only fields `0..c` are compared. */
  ghost predicate LessUpTo(a: Key, b: Key, c: nat)
    requires c < |a| && c < |b|
  {
    exists k :: 0 <= k <= c && a[k] < b[k] && forall i | 0 <= i < k :: a[i] == b[i]
  }

  ghost predicate Keys(keys: seq<Key>, columns: nat) {
    columns >= 1 && forall i | 0 <= i < |keys| :: |keys[i]| == columns
  }

  /** The stream is in index order; equal neighbours are still possible. */
  ghost predicate InOrder(keys: seq<Key>, columns: nat)
    requires Keys(keys, columns)
  {
    forall i | 0 < i < |keys| :: keys[i - 1] == keys[i] || LessUpTo(keys[i - 1], keys[i], columns - 1)
  }

  ghost predicate Distinct(keys: seq<Key>) {
    forall i | 0 < i < |keys| :: keys[i - 1] != keys[i]
  }

  /** First field at which two keys differ. */
  ghost predicate DiffersAt(a: Key, b: Key, f: nat) {
    f < |a| && f < |b| && a[f] != b[f] && forall i | 0 <= i < f :: a[i] == b[i]
  }

  ghost predicate ChangesOf(keys: seq<Key>, ch: seq<nat>) {
    && |ch| == |keys| && (|ch| > 0 ==> ch[0] == 0)
    && forall i | 0 < i < |keys| :: DiffersAt(keys[i - 1], keys[i], ch[i])
  }

  // ---------------------------------------------------------------- runs are prefix groups

  lemma LessTransitive(x: Key, y: Key, z: Key, c: nat)
    requires c < |x| && c < |y| && c < |z|
    requires LessUpTo(x, y, c) || SameUpTo(x, y, c)
    requires LessUpTo(y, z, c) || SameUpTo(y, z, c)
    ensures LessUpTo(x, z, c) || (SameUpTo(x, y, c) && SameUpTo(y, z, c))
  {
    if LessUpTo(x, y, c) {
      var j :| 0 <= j <= c && x[j] < y[j] && forall i | 0 <= i < j :: x[i] == y[i];
      if LessUpTo(y, z, c) {
        var k :| 0 <= k <= c && y[k] < z[k] && forall i | 0 <= i < k :: y[i] == z[i];
        var m := if j < k then j else k;
        assert x[m] < z[m] && forall i | 0 <= i < m :: x[i] == z[i];
      } else {
        assert x[j] < z[j] && forall i | 0 <= i < j :: x[i] == z[i];
      }
    } else if LessUpTo(y, z, c) {
      var k :| 0 <= k <= c && y[k] < z[k] && forall i | 0 <= i < k :: y[i] == z[i];
      assert x[k] < z[k] && forall i | 0 <= i < k :: x[i] == z[i];
    }
  }

  lemma NotLessThanSame(x: Key, y: Key, c: nat)
    requires c < |x| && c < |y|
    ensures !(SameUpTo(x, y, c) && LessUpTo(x, y, c))
    ensures !(LessUpTo(x, y, c) && LessUpTo(y, x, c))
  {
  }

  /** A change at or before field `c` between two rows makes the later one larger there. */
  lemma {:induction false} RowsAreOrdered(keys: seq<Key>, columns: nat, ch: seq<nat>, a: nat, b: nat, c: nat)
    requires Keys(keys, columns) && InOrder(keys, columns) && ChangesOf(keys, ch) && c < columns
    requires a <= b < |keys|
    ensures if SamePrefix(ch, a, b, c) then SameUpTo(keys[a], keys[b], c) else LessUpTo(keys[a], keys[b], c)
    decreases b
  {
    hide InOrder, LessUpTo, SameUpTo, DiffersAt;
    if a == b {
      SameAsItself(keys[a], c);
    } else {
      RowsAreOrdered(keys, columns, ch, a, b - 1, c);
      Neighbours(keys, columns, ch, b, c);
      NotLessThanSame(keys[a], keys[b - 1], c);
      NotLessThanSame(keys[b - 1], keys[b], c);
      SameTransitive(keys[a], keys[b - 1], keys[b], c);
      LessTransitive(keys[a], keys[b - 1], keys[b], c);
    }
  }

  lemma SameTransitive(x: Key, y: Key, z: Key, c: nat)
    requires c < |x| && c < |y| && c < |z|
    ensures SameUpTo(x, y, c) && SameUpTo(y, z, c) ==> SameUpTo(x, z, c)
  {
  }

  lemma SameAsItself(x: Key, c: nat)
    requires c < |x|
    ensures SameUpTo(x, x, c)
  {
  }

  lemma Neighbours(keys: seq<Key>, columns: nat, ch: seq<nat>, b: nat, c: nat)
    requires Keys(keys, columns) && InOrder(keys, columns) && ChangesOf(keys, ch) && c < columns && 0 < b < |keys|
    ensures if ch[b] <= c then LessUpTo(keys[b - 1], keys[b], c) else SameUpTo(keys[b - 1], keys[b], c)
  {
    var x, y := keys[b - 1], keys[b];
    assert DiffersAt(x, y, ch[b]) && LessUpTo(x, y, columns - 1);
    if ch[b] <= c {
      assert x[ch[b]] < y[ch[b]];
    }
  }

  // ---------------------------------------------------------------- cardinalities

  function Interval(a: nat, b: nat): (s: set<nat>)
    requires a <= b
    ensures |s| == b - a
    ensures forall i :: i in s <==> a <= i < b
    decreases b - a
  {
    if a == b then {} else Interval(a, b - 1) + {b - 1}
  }

  /** Rows with the same first `c + 1` fields as row `r`. */
  ghost function EqualRows(keys: seq<Key>, columns: nat, r: nat, c: nat): set<nat>
    requires Keys(keys, columns) && r < |keys| && c < columns
  {
    set i: nat | i < |keys| && SameUpTo(keys[i], keys[r], c)
  }

  ghost function LesserRows(keys: seq<Key>, columns: nat, r: nat, c: nat): set<nat>
    requires Keys(keys, columns) && r < |keys| && c < columns
  {
    set i: nat | i < |keys| && LessUpTo(keys[i], keys[r], c)
  }

  function Prefix(keys: seq<Key>, columns: nat, i: nat, c: nat): Key
    requires columns >= 1 && i < |keys| && |keys[i]| == columns && c < columns
  {
    keys[i][..c + 1]
  }

  /** The distinct prefixes of the rows before `e`. */
  ghost function PrefixesBefore(keys: seq<Key>, columns: nat, e: nat, c: nat): set<Key>
    requires Keys(keys, columns) && e <= |keys| && c < columns
  {
    set i: nat | i < e :: Prefix(keys, columns, i, c)
  }

  /** The distinct prefixes that sort before the one of row `r`. */
  ghost function LesserPrefixes(keys: seq<Key>, columns: nat, r: nat, c: nat): set<Key>
    requires Keys(keys, columns) && r < |keys| && c < columns
  {
    set i: nat | i < |keys| && LessUpTo(keys[i], keys[r], c) :: Prefix(keys, columns, i, c)
  }

  lemma RowOfRun(keys: seq<Key>, columns: nat, ch: seq<nat>, r: nat, c: nat, i: nat)
    requires Keys(keys, columns) && InOrder(keys, columns) && ChangesOf(keys, ch) && c < columns && r < |keys|
             && i < |keys|
    ensures SameUpTo(keys[i], keys[r], c) <==> RunStart(ch, r, c) <= i < RunEnd(ch, r, c)
    ensures LessUpTo(keys[i], keys[r], c) <==> i < RunStart(ch, r, c)
  {
    hide LessUpTo, InOrder, DiffersAt;
    if i <= r {
      RowsAreOrdered(keys, columns, ch, i, r, c);
      assert SamePrefix(ch, i, r, c) <==> RunStart(ch, r, c) <= i;
    } else {
      RowsAreOrdered(keys, columns, ch, r, i, c);
      assert SamePrefix(ch, r, i, c) <==> i < RunEnd(ch, r, c);
    }
    NotLessThanSame(keys[i], keys[r], c);
    NotLessThanSame(keys[r], keys[i], c);
  }

  lemma RowsOfRun(keys: seq<Key>, columns: nat, ch: seq<nat>, r: nat, c: nat)
    requires Keys(keys, columns) && InOrder(keys, columns) && ChangesOf(keys, ch) && c < columns && r < |keys|
    ensures |EqualRows(keys, columns, r, c)| == RunLength(ch, r, c)
    ensures |LesserRows(keys, columns, r, c)| == RunStart(ch, r, c)
    ensures LesserPrefixes(keys, columns, r, c) == PrefixesBefore(keys, columns, RunStart(ch, r, c), c)
  {
    hide SameUpTo, LessUpTo, InOrder, DiffersAt;
    var s, e := RunStart(ch, r, c), RunEnd(ch, r, c);
    forall i: nat | i < |keys|
      ensures SameUpTo(keys[i], keys[r], c) <==> s <= i < e
      ensures LessUpTo(keys[i], keys[r], c) <==> i < s
    {
      RowOfRun(keys, columns, ch, r, c, i);
    }
    assert EqualRows(keys, columns, r, c) == Interval(s, e);
    assert LesserRows(keys, columns, r, c) == Interval(0, s);
    assert forall i: nat | i < |keys| :: i in LesserRows(keys, columns, r, c) <==> i < s;
  }

  /** A row repeats an earlier prefix exactly when it stays in the run of the row before it. */
  lemma NewPrefix(keys: seq<Key>, columns: nat, ch: seq<nat>, r: nat, c: nat)
    requires Keys(keys, columns) && InOrder(keys, columns) && ChangesOf(keys, ch) && c < columns
    requires 0 < r < |keys|
    ensures Prefix(keys, columns, r, c) in PrefixesBefore(keys, columns, r, c) <==> ch[r] > c
  {
    if ch[r] > c {
      assert DiffersAt(keys[r - 1], keys[r], ch[r]);
      assert Prefix(keys, columns, r - 1, c) == Prefix(keys, columns, r, c);
    } else {
      forall i: nat | i < r ensures Prefix(keys, columns, i, c) != Prefix(keys, columns, r, c) {
        RowsAreOrdered(keys, columns, ch, i, r, c);
        assert !SamePrefix(ch, i, r, c);
        DifferentPrefix(keys, columns, i, r, c);
      }
    }
  }

  lemma DifferentPrefix(keys: seq<Key>, columns: nat, i: nat, r: nat, c: nat)
    requires Keys(keys, columns) && c < columns && i < |keys| && r < |keys|
    requires LessUpTo(keys[i], keys[r], c)
    ensures Prefix(keys, columns, i, c) != Prefix(keys, columns, r, c)
  {
    var k :| 0 <= k <= c && keys[i][k] < keys[r][k];
    assert Prefix(keys, columns, i, c)[k] != Prefix(keys, columns, r, c)[k];
  }

  lemma PrefixesGrow(keys: seq<Key>, columns: nat, e: nat, c: nat)
    requires Keys(keys, columns) && e < |keys| && c < columns
    ensures PrefixesBefore(keys, columns, e + 1, c) == PrefixesBefore(keys, columns, e, c)
            + {Prefix(keys, columns, e, c)}
  {
  }

  lemma {:induction false} PrefixesOfRuns(keys: seq<Key>, columns: nat, ch: seq<nat>, r: nat, c: nat)
    requires Keys(keys, columns) && InOrder(keys, columns) && ChangesOf(keys, ch) && c < columns && r < |keys|
    ensures |PrefixesBefore(keys, columns, r + 1, c)| == RunsBefore(ch, r, c) + 1
    ensures |PrefixesBefore(keys, columns, RunStart(ch, r, c), c)| == RunsBefore(ch, r, c)
    decreases r
  {
    hide InOrder, ChangesOf, PrefixesBefore, Prefix;
    PrefixesGrow(keys, columns, r, c);
    var before, now := PrefixesBefore(keys, columns, r, c), Prefix(keys, columns, r, c);
    if r == 0 {
      NoPrefixes(keys, columns, c);
    } else {
      PrefixesOfRuns(keys, columns, ch, r - 1, c);
      NewPrefix(keys, columns, ch, r, c);
    }
    AddOne(before, now);
  }

  lemma AddOne(s: set<Key>, x: Key)
    ensures |s + {x}| == if x in s then |s| else |s| + 1
  {
    if x in s {
      assert s + {x} == s;
    }
  }

  lemma NoPrefixes(keys: seq<Key>, columns: nat, c: nat)
    requires Keys(keys, columns) && c < columns
    ensures PrefixesBefore(keys, columns, 0, c) == {}
  {
  }

  // ---------------------------------------------------------------- the caller

  /** A published sample counts, over the whole index: the rows equal to it, the rows before
      it and the distinct keys before it, for every prefix of its key. */
  ghost predicate CountsKeys(keys: seq<Key>, columns: nat, s: IndexSample, r: nat)
    requires Keys(keys, columns)
  {
    && r < |keys| && |s.equal| == |s.less| == |s.distinctLess| == columns
    && forall c | 0 <= c < columns ::
         && s.equal[c] == |EqualRows(keys, columns, r, c)|
         && s.less[c] == |LesserRows(keys, columns, r, c)|
         && s.distinctLess[c] == |LesserPrefixes(keys, columns, r, c)|
  }

  lemma ExactIsCount(keys: seq<Key>, columns: nat, ch: seq<nat>, wit: seq<nat>, s: IndexSample, r: nat)
    requires Keys(keys, columns) && InOrder(keys, columns) && ChangesOf(keys, ch)
    requires ExactAt(ch, wit, columns, s, r)
    ensures CountsKeys(keys, columns, s, r)
  {
    forall c | 0 <= c < columns
      ensures s.equal[c] == |EqualRows(keys, columns, r, c)| && s.less[c] == |LesserRows(keys, columns, r, c)|
      ensures s.distinctLess[c] == |LesserPrefixes(keys, columns, r, c)|
    {
      RowsOfRun(keys, columns, ch, r, c);
      PrefixesOfRuns(keys, columns, ch, r, c);
    }
  }

  lemma DistinctIsCount(keys: seq<Key>, columns: nat, ch: seq<nat>, c: nat)
    requires Keys(keys, columns) && InOrder(keys, columns) && ChangesOf(keys, ch) && c < columns && keys != []
    ensures DistinctPrefixes(ch, c) == |PrefixesBefore(keys, columns, |keys|, c)|
  {
    PrefixesOfRuns(keys, columns, ch, |keys| - 1, c);
  }

  method FirstDifference(a: Key, b: Key) returns (r: Result<nat>)
    requires |a| == |b|
    ensures r.Ok? ==> DiffersAt(a, b, r.value)
    ensures r.Err? <==> a == b
  {
    for field := 0 to |a|
      invariant forall i | 0 <= i < field :: a[i] == b[i]
    {
      if a[field] != b[field] {
        return Ok(field);
      }
    }
    return Err("integer index stream contains duplicate complete keys");
  }

  /** Everything published about an index, as counts over its keys. */
  ghost predicate Exact(keys: seq<Key>, offsets: seq<nat>, columns: nat, keyColumns: nat, full: FullIndexStatistics)
    requires Keys(keys, columns) && keyColumns <= columns && |keys| == |offsets|
  {
    && |full.samples| <= SAMPLE_COUNT
    && (forall i | 0 <= i < |full.samples| ::
          var s := full.samples[i];
          && |s.less| == columns && s.less[columns - 1] < |keys|
          && s.witnessId == offsets[s.less[columns - 1]] && CountsKeys(keys, columns, s, s.less[columns - 1]))
    && full.stat1 == KeyStat1(keys, columns, keyColumns)
    && (forall i, j | 0 <= i < j < |full.samples| ::
          full.samples[i].less[columns - 1] < full.samples[j].less[columns - 1])
    && Covers(|keys|, |keys| / 9 + 1, columns, full.samples)
    && PrefixesAreSampled(keys, columns, |keys| / 9 + 1, full.samples)
  }

  /** Which prefixes are sampled.  Each published key that is not scheduled stands for the keys that share its
      fields up to the one `chosen` for it, no two for the same keys.  A prefix, short of the whole key, that no
      published key has is only found when all 24 places are taken, and then each prefix that is stood for is
      shared by more keys, or by as many and not longer. */
  ghost predicate PrefixesRepresented(keys: seq<Key>, columns: nat, interval: nat, samples: seq<IndexSample>,
                                      chosen: seq<nat>)
    requires Keys(keys, columns)
    requires forall i | 0 <= i < |samples| :: |samples[i].less| == columns && samples[i].less[columns - 1] < |keys|
  {
    && |chosen| == |samples|
    && (forall i | Unscheduled(samples, columns, interval, i) :: chosen[i] + 1 < columns)
    && (forall i, j | Unscheduled(samples, columns, interval, i) && Unscheduled(samples, columns, interval, j) && i < j
                      && chosen[i] == chosen[j] ::
          !SameUpTo(keys[samples[i].less[columns - 1]], keys[samples[j].less[columns - 1]], chosen[i]))
    && forall r: nat, c: nat | r < |keys| && c + 1 < columns ::
         || PrefixHasSample(keys, columns, samples, r, c)
         || (|samples| == SAMPLE_COUNT
             && forall i | Unscheduled(samples, columns, interval, i) ::
                  PrefixCounts(keys, columns, samples[i].less[columns - 1], chosen[i], r, c))
  }

  ghost predicate Unscheduled(samples: seq<IndexSample>, columns: nat, interval: nat, i: int) {
    0 <= i < |samples| && |samples[i].less| == columns >= 1 && !IsScheduled(samples[i].less[columns - 1], interval)
  }

  ghost predicate PrefixHasSample(keys: seq<Key>, columns: nat, samples: seq<IndexSample>, r: nat, c: nat)
    requires Keys(keys, columns) && r < |keys| && c < columns
    requires forall i | 0 <= i < |samples| :: |samples[i].less| == columns && samples[i].less[columns - 1] < |keys|
  {
    exists i :: 0 <= i < |samples| && SameUpTo(keys[samples[i].less[columns - 1]], keys[r], c)
  }

  /** The prefix of row `q` up to `d` is shared by more keys than that of row `r` up to `c`, or by as many and not
      longer. */
  ghost predicate PrefixCounts(keys: seq<Key>, columns: nat, q: nat, d: nat, r: nat, c: nat)
    requires Keys(keys, columns) && q < |keys| && r < |keys| && d < columns && c < columns
  {
    var more, fewer := |EqualRows(keys, columns, q, d)|, |EqualRows(keys, columns, r, c)|;
    more > fewer || (more == fewer && d <= c)
  }

  ghost predicate PrefixesAreSampled(keys: seq<Key>, columns: nat, interval: nat, samples: seq<IndexSample>)
    requires Keys(keys, columns)
    requires forall i | 0 <= i < |samples| :: |samples[i].less| == columns && samples[i].less[columns - 1] < |keys|
  {
    exists chosen: seq<nat> :: PrefixesRepresented(keys, columns, interval, samples, chosen)
  }

  lemma RunsArePrefixes(keys: seq<Key>, columns: nat, ch: seq<nat>, wit: seq<nat>, interval: nat,
                        samples: seq<IndexSample>, chosen: seq<nat>)
    requires Keys(keys, columns) && InOrder(keys, columns) && ChangesOf(keys, ch)
    requires PublishedExactly(ch, wit, columns, samples) && Represents(ch, columns, interval, samples, chosen)
    ensures PrefixesRepresented(keys, columns, interval, samples, chosen)
  {
    hide InOrder, ChangesOf, SameUpTo, IsScheduled, RunStart, RunEnd, EqualRows, Represents, PublishedExactly;
    assert |ch| == |keys| by { SameCount(keys, ch); }
    SamplesInside(ch, wit, columns, interval, samples, chosen);
    forall i | Unscheduled(samples, columns, interval, i) ensures chosen[i] + 1 < columns {
      ChosenInside(ch, columns, interval, samples, chosen, i);
    }
    forall i, j | Unscheduled(samples, columns, interval, i) && Unscheduled(samples, columns, interval, j) && i < j
                  && chosen[i] == chosen[j]
      ensures !SameUpTo(keys[samples[i].less[columns - 1]], keys[samples[j].less[columns - 1]], chosen[i])
    {
      OtherPrefixes(keys, columns, ch, wit, interval, samples, chosen, i, j);
    }
    forall r: nat, c: nat | r < |keys| && c + 1 < columns
      ensures || PrefixHasSample(keys, columns, samples, r, c)
              || (|samples| == SAMPLE_COUNT
                  && forall i | Unscheduled(samples, columns, interval, i) ::
                       PrefixCounts(keys, columns, samples[i].less[columns - 1], chosen[i], r, c))
    {
      PrefixIsTreated(keys, columns, ch, wit, interval, samples, chosen, r, c);
    }
  }

  lemma SameCount(keys: seq<Key>, ch: seq<nat>)
    requires ChangesOf(keys, ch)
    ensures |ch| == |keys|
  {
  }

  lemma SamplesInside(ch: seq<nat>, wit: seq<nat>, columns: nat, interval: nat, samples: seq<IndexSample>,
                      chosen: seq<nat>)
    requires PublishedExactly(ch, wit, columns, samples) && Represents(ch, columns, interval, samples, chosen)
    ensures |chosen| == |samples|
    ensures forall i | 0 <= i < |samples| :: |samples[i].less| == columns && samples[i].less[columns - 1] < |ch|
  {
    forall i | 0 <= i < |samples| ensures |samples[i].less| == columns && samples[i].less[columns - 1] < |ch| {
      assert ExactAt(ch, wit, columns, samples[i], samples[i].less[columns - 1]);
    }
  }

  lemma ChosenInside(ch: seq<nat>, columns: nat, interval: nat, samples: seq<IndexSample>, chosen: seq<nat>, i: nat)
    requires Represents(ch, columns, interval, samples, chosen) && Unscheduled(samples, columns, interval, i)
    ensures |chosen| == |samples| && chosen[i] + 1 < columns
  {
  }

  lemma OtherPrefixes(keys: seq<Key>, columns: nat, ch: seq<nat>, wit: seq<nat>, interval: nat,
                      samples: seq<IndexSample>, chosen: seq<nat>, i: nat, j: nat)
    requires Keys(keys, columns) && InOrder(keys, columns) && ChangesOf(keys, ch)
    requires PublishedExactly(ch, wit, columns, samples) && Represents(ch, columns, interval, samples, chosen)
    requires Unscheduled(samples, columns, interval, i) && Unscheduled(samples, columns, interval, j) && i < j
    requires |chosen| == |samples| && chosen[i] == chosen[j] && chosen[i] < columns
    requires samples[i].less[columns - 1] < |keys| && samples[j].less[columns - 1] < |keys|
    ensures !SameUpTo(keys[samples[i].less[columns - 1]], keys[samples[j].less[columns - 1]], chosen[i])
  {
    hide InOrder, SameUpTo, IsScheduled;
    var p, q, d := samples[i].less[columns - 1], samples[j].less[columns - 1], chosen[i];
    assert ExactAt(ch, wit, columns, samples[i], p) && ExactAt(ch, wit, columns, samples[j], q);
    RowOfRun(keys, columns, ch, q, d, p);
    if RunStart(ch, q, d) <= p < RunEnd(ch, q, d) {
      RunOfMember(ch, q, d, p);
    }
  }

  lemma RunOfMember(ch: seq<nat>, r: nat, c: nat, p: nat)
    requires r < |ch| && RunStart(ch, r, c) <= p < RunEnd(ch, r, c)
    ensures RunStart(ch, p, c) == RunStart(ch, r, c)
  {
    StartIsUnique(ch, RunStart(ch, r, c), p, c);
  }

  lemma PrefixIsTreated(keys: seq<Key>, columns: nat, ch: seq<nat>, wit: seq<nat>, interval: nat,
                        samples: seq<IndexSample>, chosen: seq<nat>, r: nat, c: nat)
    requires Keys(keys, columns) && InOrder(keys, columns) && ChangesOf(keys, ch) && r < |keys| && c + 1 < columns
    requires PublishedExactly(ch, wit, columns, samples) && Represents(ch, columns, interval, samples, chosen)
    requires forall i | 0 <= i < |samples| :: |samples[i].less| == columns && samples[i].less[columns - 1] < |keys|
    requires |chosen| == |samples| && forall i | Unscheduled(samples, columns, interval, i) :: chosen[i] + 1 < columns
    ensures || PrefixHasSample(keys, columns, samples, r, c)
            || (|samples| == SAMPLE_COUNT
                && forall i | Unscheduled(samples, columns, interval, i) ::
                     PrefixCounts(keys, columns, samples[i].less[columns - 1], chosen[i], r, c))
  {
    hide InOrder, SameUpTo, IsScheduled, RunStart, RunEnd, EqualRows;
    if HasSample(ch, columns, samples, r, c) {
      var i :| 0 <= i < |samples| && InRun(ch, r, c, samples[i].less[columns - 1]);
      RowOfRun(keys, columns, ch, r, c, samples[i].less[columns - 1]);
    } else {
      RowsOfRun(keys, columns, ch, r, c);
      forall i | Unscheduled(samples, columns, interval, i)
        ensures PrefixCounts(keys, columns, samples[i].less[columns - 1], chosen[i], r, c)
      {
        assert ExactAt(ch, wit, columns, samples[i], samples[i].less[columns - 1]);
        RowsOfRun(keys, columns, ch, samples[i].less[columns - 1], chosen[i]);
      }
    }
  }

  /** The row count, then the rows per distinct key prefix of each key field. */
  ghost function KeyStat1(keys: seq<Key>, columns: nat, keyColumns: nat): seq<nat>
    requires Keys(keys, columns) && keyColumns <= columns
  {
    if keyColumns == 0 then [|keys|]
    else
      var prefixes := |PrefixesBefore(keys, columns, |keys|, keyColumns - 1)|;
      KeyStat1(keys, columns, keyColumns - 1) + [Average(|keys|, if prefixes == 0 then 1 else prefixes)]
  }

  lemma {:induction false} Stat1CountsKeys(keys: seq<Key>, columns: nat, ch: seq<nat>, keyColumns: nat)
    requires Keys(keys, columns) && InOrder(keys, columns) && ChangesOf(keys, ch) && keyColumns <= columns
    ensures Stat1Numbers(ch, keyColumns) == KeyStat1(keys, columns, keyColumns)
  {
    if keyColumns > 0 {
      Stat1CountsKeys(keys, columns, ch, keyColumns - 1);
      if keys != [] {
        DistinctIsCount(keys, columns, ch, keyColumns - 1);
      } else {
        NoPrefixes(keys, columns, keyColumns - 1);
      }
    }
  }

  lemma PublishedIsExact(keys: seq<Key>, offsets: seq<nat>, columns: nat, keyColumns: nat, ch: seq<nat>,
                         full: FullIndexStatistics)
    requires Keys(keys, columns) && InOrder(keys, columns) && ChangesOf(keys, ch)
    requires keyColumns <= columns && |keys| == |offsets|
    requires Published(ch, offsets, columns, keyColumns, full)
    ensures Exact(keys, offsets, columns, keyColumns, full)
  {
    forall i | 0 <= i < |full.samples|
      ensures CountsKeys(keys, columns, full.samples[i], full.samples[i].less[columns - 1])
    {
      ExactIsCount(keys, columns, ch, offsets, full.samples[i], full.samples[i].less[columns - 1]);
    }
    Stat1CountsKeys(keys, columns, ch, keyColumns);
    var chosen :| Represents(ch, columns, |ch| / 9 + 1, full.samples, chosen);
    RunsArePrefixes(keys, columns, ch, offsets, |ch| / 9 + 1, full.samples, chosen);
  }

  /** Feeds a sorted stream to the sampler.  It fails exactly when the column counts are invalid
      or two neighbours are equal; otherwise everything published is an exact count over the keys. */
  method Analyze(keys: seq<Key>, offsets: seq<nat>, columns: nat, keyColumns: nat, seed: nat)
    returns (r: Result<FullIndexStatistics>)
    requires |keys| == |offsets| <= U64_MAX
    requires Keys(keys, columns) && InOrder(keys, columns)
    ensures r.Ok? <==> 1 <= keyColumns <= columns <= MAX_COLUMNS && Distinct(keys)
    ensures r.Ok? ==> Exact(keys, offsets, columns, keyColumns, r.value)
  {
    hide Exact, Published, InOrder, ChangesOf, DiffersAt, Distinct, IndexStatistics.Valid;
    NoChanges(keys);
    var created := IndexStatistics.New(columns, keyColumns, |keys|, seed);
    if created.Err? {
      return Err(created.message);
    }
    var statistics := created.value;
    for i := 0 to |keys|
      invariant statistics.Valid() && fresh(statistics)
      invariant ChangesOf(keys[..i], statistics.changes) && statistics.witnesses == offsets[..i]
    {
      var changed := ChangedAt(keys, columns, i);
      if changed.Err? {
        return Err(changed.message);
      }
      ghost var ch := statistics.changes;
      RowsPushed(statistics);
      ChangesGrow(keys, i, ch, changed.value);
      var pushed := statistics.Push(changed.value, offsets[i]);
      assert pushed.Ok?;
      assert offsets[..i + 1] == offsets[..i] + [offsets[i]];
    }
    assert keys[..|keys|] == keys && offsets[..|keys|] == offsets;
    ghost var ch := statistics.changes;
    RowsPushed(statistics);
    ChangesAreDistinct(keys, ch);
    r := statistics.Finish();
    PublishedIsExact(keys, offsets, columns, keyColumns, ch, r.value);
  }

  /** The first field in which key `i` differs from the one before it; 0 for the first key. */
  method ChangedAt(keys: seq<Key>, columns: nat, i: nat) returns (changed: Result<nat>)
    requires Keys(keys, columns) && i < |keys|
    ensures changed.Err? ==> !Distinct(keys)
    ensures changed.Ok? ==> changed.value < columns
                            && if i == 0 then changed.value == 0 else DiffersAt(keys[i - 1], keys[i], changed.value)
  {
    if i == 0 {
      return Ok(0);
    }
    changed := FirstDifference(keys[i - 1], keys[i]);
  }

  lemma NoChanges(keys: seq<Key>)
    ensures ChangesOf(keys[..0], [])
  {
  }

  lemma RowsPushed(statistics: IndexStatistics)
    requires statistics.Valid()
    ensures statistics.rows == |statistics.changes|
  {
  }

  lemma ChangesAreDistinct(keys: seq<Key>, ch: seq<nat>)
    requires ChangesOf(keys, ch)
    ensures Distinct(keys) && |ch| == |keys|
  {
    assert forall i | 0 < i < |keys| :: DiffersAt(keys[i - 1], keys[i], ch[i]);
  }

  lemma ChangesGrow(keys: seq<Key>, i: nat, ch: seq<nat>, changed: nat)
    requires i < |keys| && ChangesOf(keys[..i], ch)
    ensures |ch| == i && (i == 0 ==> ch == [])
    requires if i == 0 then changed == 0 else DiffersAt(keys[i - 1], keys[i], changed)
    ensures ChangesOf(keys[..i + 1], ch + [changed])
  {
    var now := keys[..i + 1];
    assert now[..i] == keys[..i];
    forall k | 0 < k < |now| ensures DiffersAt(now[k - 1], now[k], (ch + [changed])[k]) {
      if k < i {
        assert DiffersAt(keys[..i][k - 1], keys[..i][k], ch[k]);
      }
    }
  }
}
