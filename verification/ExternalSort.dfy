/** Sorted runs, their 16-way merge generations, and the final merge (`make_runs`, `merge_visit` and
    the generations of `sort_keys` in `index_builder.rs`).  A run is a file of keys. */
module ExternalSort {
  import opened Bytes
  import opened RadixSorting
  import opened Results

  const MERGE_FAN_IN: nat := 16

  // ---------------------------------------------------------------- all keys of several runs

  ghost function All(runs: seq<seq<nat>>): multiset<nat> {
    if runs == [] then multiset{} else All(runs[..|runs| - 1]) + multiset(runs[|runs| - 1])
  }

  lemma AllPush(runs: seq<seq<nat>>, run: seq<nat>)
    ensures All(runs + [run]) == All(runs) + multiset(run)
  {
    assert (runs + [run])[..|runs|] == runs;
  }

  lemma {:induction false} AllConcat(a: seq<seq<nat>>, b: seq<seq<nat>>)
    ensures All(a + b) == All(a) + All(b)
    decreases |b|
  {
    if b == [] {
      assert a + b == a;
    } else {
      var k := |b| - 1;
      AllConcat(a, b[..k]);
      var s := a + b;
      assert s[..|s| - 1] == a + b[..k] && s[|s| - 1] == b[k];
      assert All(s) == All(a + b[..k]) + multiset(b[k]) && All(b) == All(b[..k]) + multiset(b[k]);
    }
  }

  ghost predicate AllSorted(runs: seq<seq<nat>>) {
    forall r | 0 <= r < |runs| :: Sorted(runs[r])
  }

  // ---------------------------------------------------------------- merging

  /** What is left of the runs. */
  ghost predicate Rests(runs: seq<seq<nat>>, at: seq<nat>) {
    |at| == |runs| && forall r | 0 <= r < |runs| :: at[r] <= |runs[r]|
  }

  ghost function Rest(runs: seq<seq<nat>>, at: seq<nat>): multiset<nat>
    requires Rests(runs, at)
  {
    if runs == [] then multiset{}
    else Rest(runs[..|runs| - 1], at[..|runs| - 1]) + multiset(runs[|runs| - 1][at[|runs| - 1]..])
  }

  lemma TakeOne(run: seq<nat>, i: nat)
    requires i < |run|
    ensures multiset(run[i..]) == multiset(run[i + 1..]) + multiset{run[i]}
  {
    assert run[i..] == [run[i]] + run[i + 1..];
  }

  lemma LastRest(runs: seq<seq<nat>>, at: seq<nat>)
    requires Rests(runs, at) && runs != []
    ensures var k := |runs| - 1; Rests(runs[..k], at[..k]) && Rest(runs, at)
                                 == Rest(runs[..k], at[..k]) + multiset(runs[k][at[k]..])
  {
  }

  lemma {:induction false} RestTake(runs: seq<seq<nat>>, at: seq<nat>, r: nat)
    requires Rests(runs, at) && r < |runs| && at[r] < |runs[r]|
    ensures Rest(runs, at) == Rest(runs, at[r := at[r] + 1]) + multiset{runs[r][at[r]]}
    decreases |runs|
  {
    hide Rest;
    var k, next := |runs| - 1, at[r := at[r] + 1];
    LastRest(runs, at);
    LastRest(runs, next);
    if r < k {
      assert next[..k] == at[..k][r := at[r] + 1] && next[k] == at[k];
      RestTake(runs[..k], at[..k], r);
      assert runs[..k][r] == runs[r] && at[..k][r] == at[r];
    } else {
      assert next[..k] == at[..k];
      TakeOne(runs[r], at[r]);
    }
  }

  lemma {:induction false} RestAll(runs: seq<seq<nat>>, at: seq<nat>)
    requires Rests(runs, at) && forall r | 0 <= r < |runs| :: at[r] == 0
    ensures Rest(runs, at) == All(runs)
    decreases |runs|
  {
    if runs != [] {
      RestAll(runs[..|runs| - 1], at[..|runs| - 1]);
    }
  }

  lemma {:induction false} RestNone(runs: seq<seq<nat>>, at: seq<nat>)
    requires Rests(runs, at) && forall r | 0 <= r < |runs| :: at[r] == |runs[r]|
    ensures Rest(runs, at) == multiset{}
    decreases |runs|
  {
    if runs != [] {
      RestNone(runs[..|runs| - 1], at[..|runs| - 1]);
    }
  }

  /** The heads in the heap: one per unfinished run. */
  ghost predicate Heads(runs: seq<seq<nat>>, at: seq<nat>, heads: seq<Option<nat>>)
    requires Rests(runs, at)
  {
    |heads| == |runs| && forall r | 0 <= r < |runs| :: heads[r] == if at[r] < |runs[r]| then Some(runs[r][at[r]])
                                                       else None
  }

  /** The heap's least entry: the smallest key, and the first run that has it. */
  method Peek(heads: seq<Option<nat>>) returns (least: Option<nat>)
    ensures least.None? ==> forall r | 0 <= r < |heads| :: heads[r].None?
    ensures least.Some? ==>
              && least.value < |heads| && heads[least.value].Some?
              && (forall r | 0 <= r < |heads| && heads[r].Some? :: heads[least.value].value <= heads[r].value)
              && forall r | 0 <= r < least.value && heads[r].Some? :: heads[least.value].value < heads[r].value
  {
    least := None;
    for run := 0 to |heads|
      invariant least.None? ==> forall r | 0 <= r < run :: heads[r].None?
      invariant least.Some? ==>
                  && least.value < run && heads[least.value].Some?
                  && (forall r | 0 <= r < run && heads[r].Some? :: heads[least.value].value <= heads[r].value)
                  && forall r | 0 <= r < least.value && heads[r].Some? :: heads[least.value].value < heads[r].value
    {
      if heads[run].Some? && (least.None? || heads[run].value < heads[least.value].value) {
        least := Some(run);
      }
    }
  }

  /** Everything written so far is at most every head. */
  ghost predicate Below(out: seq<nat>, heads: seq<Option<nat>>) {
    forall k, r | k in out && 0 <= r < |heads| && heads[r].Some? :: k <= heads[r].value
  }

  lemma EmitSorted(out: seq<nat>, heads: seq<Option<nat>>, run: nat, head: Option<nat>)
    requires Sorted(out) && Below(out, heads) && run < |heads| && heads[run].Some?
    requires forall r | 0 <= r < |heads| && heads[r].Some? :: heads[run].value <= heads[r].value
    requires head.Some? ==> heads[run].value <= head.value
    ensures Sorted(out + [heads[run].value]) && Below(out + [heads[run].value], heads[run := head])
  {
    forall i | 0 <= i < |out| ensures out[i] <= heads[run].value {
      assert out[i] in out;
    }
  }

  /** Where each key came from: its run, and its place there. */
  ghost predicate Origins(runs: seq<seq<nat>>, out: seq<nat>, origins: seq<(nat, nat)>) {
    && |origins| == |out|
    && forall i | 0 <= i < |out| ::
         var (run, position) := origins[i]; run < |runs| && position < |runs[run]| && runs[run][position] == out[i]
  }

  lemma NoOrigins(runs: seq<seq<nat>>)
    ensures Origins(runs, [], [])
  {
  }

  lemma OriginsGrow(runs: seq<seq<nat>>, out: seq<nat>, origins: seq<(nat, nat)>, run: nat, position: nat)
    requires Origins(runs, out, origins) && run < |runs| && position < |runs[run]|
    ensures Origins(runs, out + [runs[run][position]], origins + [(run, position)])
  {
  }

  /** Visits all keys of the runs in order. */
  method MergeVisit(runs: seq<seq<nat>>) returns (out: seq<nat>, origins: seq<(nat, nat)>)
    ensures multiset(out) == All(runs) && Origins(runs, out, origins)
    ensures AllSorted(runs) ==> Sorted(out)
  {
    hide Rest, Below, Sorted, Origins, All;
    NoOrigins(runs);
    var at: seq<nat> := seq(|runs|, _ => 0);
    var heads := seq(|runs|, r requires 0 <= r < |runs| => if runs[r] != [] then Some(runs[r][0]) else None);
    out, origins := [], [];
    RestAll(runs, at);
    NothingOut(heads);
    var more := true;
    while more
      invariant Rests(runs, at) && Heads(runs, at, heads)
      invariant multiset(out) + Rest(runs, at) == All(runs) && Origins(runs, out, origins)
      invariant AllSorted(runs) ==> Sorted(out) && Below(out, heads)
      invariant !more ==> forall r | 0 <= r < |runs| :: at[r] == |runs[r]|
      decreases |Rest(runs, at)|, more
    {
      var least := Peek(heads);
      if least.None? {
        assert forall r | 0 <= r < |runs| :: heads[r].None?;
        more := false;
      } else {
        var run := least.value;
        var key := heads[run].value;
        RestTake(runs, at, run);
        var next := if at[run] + 1 < |runs[run]| then Some(runs[run][at[run] + 1]) else None;
        if AllSorted(runs) {
          NextIsLarger(runs[run], at[run]);
          EmitSorted(out, heads, run, next);
        }
        OriginsGrow(runs, out, origins, run, at[run]);
        out, origins := out + [key], origins + [(run, at[run])];
        at := at[run := at[run] + 1];
        heads := heads[run := next];
      }
    }
    RestNone(runs, at);
  }

  lemma NothingOut(heads: seq<Option<nat>>)
    ensures Sorted([]) && Below([], heads)
  {
  }

  lemma NextIsLarger(run: seq<nat>, i: nat)
    requires Sorted(run) && i < |run|
    ensures i + 1 < |run| ==> run[i] <= run[i + 1]
  {
  }

  /** Merges groups of sixteen runs until sixteen or fewer are left, and then those. */
  method MergeGenerations(runs: seq<seq<nat>>) returns (out: seq<nat>)
    requires AllSorted(runs)
    ensures Sorted(out) && multiset(out) == All(runs)
  {
    hide All, Sorted;
    var paths := runs;
    while |paths| > MERGE_FAN_IN
      invariant AllSorted(paths) && All(paths) == All(runs)
      decreases |paths|
    {
      var next := [];
      var first := 0;
      NoRuns();
      assert paths[..0] == [];
      while first < |paths|
        invariant first <= |paths| && AllSorted(next) && All(next) == All(paths[..first])
        invariant first == MERGE_FAN_IN * |next| || first == |paths|
        invariant MERGE_FAN_IN * (|next| - 1) < first || next == []
      {
        var last := if first + MERGE_FAN_IN <= |paths| then first + MERGE_FAN_IN else |paths|;
        var merged, _ := MergeVisit(paths[first..last]);
        AllConcat(paths[..first], paths[first..last]);
        assert paths[..first] + paths[first..last] == paths[..last];
        AllPush(next, merged);
        next := next + [merged];
        first := last;
      }
      assert paths[..|paths|] == paths;
      paths := next;
    }
    var origins;
    out, origins := MergeVisit(paths);
  }

  lemma NoRuns()
    ensures All([]) == multiset{}
  {
  }

  // ---------------------------------------------------------------- runs

  /** Rows of one run. */
  function Chunk(keys: seq<nat>, capacity: nat, run: nat): seq<nat> {
    var first := run * capacity;
    if first >= |keys| then [] else if |keys| - first < capacity then keys[first..] else keys[first..first + capacity]
  }

  /** The rows of a worker's first `n` runs: runs `worker`, `worker + workers`, and so on. */
  ghost function Column(keys: seq<nat>, capacity: nat, worker: nat, workers: nat, n: nat): multiset<nat> {
    if n == 0 then multiset{}
    else Column(keys, capacity, worker, workers, n - 1) + multiset(Chunk(keys, capacity, (n - 1) * workers + worker))
  }

  /** The rows of the first `n` runs. */
  ghost function Chunks(keys: seq<nat>, capacity: nat, n: nat): multiset<nat> {
    if n == 0 then multiset{} else Chunks(keys, capacity, n - 1) + multiset(Chunk(keys, capacity, n - 1))
  }

  /** The rows of the first `w` workers. */
  ghost function Columns(keys: seq<nat>, capacity: nat, w: nat, workers: nat, n: nat): multiset<nat> {
    if w == 0 then multiset{} else Columns(keys, capacity, w - 1, workers, n)
                                   + Column(keys, capacity, w - 1, workers, n)
  }

  ghost function Min(a: nat, b: nat): nat {
    if a < b then a else b
  }

  lemma ChunkAppends(keys: seq<nat>, capacity: nat, n: nat)
    requires capacity >= 1 && n > 0
    ensures keys[..Min(n * capacity, |keys|)] == keys[..Min((n - 1) * capacity, |keys|)] + Chunk(keys, capacity, n - 1)
  {
    var first, last := (n - 1) * capacity, n * capacity;
    assert last == first + capacity;
    hide Chunk;
    ChunkFrom(keys, capacity, n - 1, first);
    if first < |keys| {
      assert keys[..Min(last, |keys|)] == keys[..first] + keys[first..Min(last, |keys|)];
    }
  }

  lemma ChunkFrom(keys: seq<nat>, capacity: nat, n: nat, first: nat)
    requires first == n * capacity
    ensures Chunk(keys, capacity, n) == if first >= |keys| then [] else keys[first..Min(first + capacity, |keys|)]
  {
    assert first < |keys| ==> keys[first..] == keys[first..|keys|];
  }

  lemma {:induction false} ChunksArePrefix(keys: seq<nat>, capacity: nat, n: nat)
    requires capacity >= 1
    ensures Chunks(keys, capacity, n) == multiset(keys[..Min(n * capacity, |keys|)])
  {
    hide Chunk;
    if n > 0 {
      ChunksArePrefix(keys, capacity, n - 1);
      ChunkAppends(keys, capacity, n);
    } else {
      assert keys[..0] == [];
    }
  }

  lemma NextColumn(keys: seq<nat>, capacity: nat, worker: nat, workers: nat, n: nat)
    ensures Column(keys, capacity, worker, workers, 0) == multiset{}
    ensures Column(keys, capacity, worker, workers, n + 1)
         == Column(keys, capacity, worker, workers, n) + multiset(Chunk(keys, capacity, n * workers + worker))
  {
    hide Chunk;
  }

  lemma NextChunk(keys: seq<nat>, capacity: nat, n: nat)
    ensures Chunks(keys, capacity, n + 1) == Chunks(keys, capacity, n) + multiset(Chunk(keys, capacity, n))
  {
    hide Chunk;
  }

  lemma NextWorker(keys: seq<nat>, capacity: nat, w: nat, workers: nat, n: nat)
    ensures w == 0 ==> Columns(keys, capacity, w, workers, n) == multiset{}
    ensures w > 0 ==>
              Columns(keys, capacity, w, workers, n) == Columns(keys, capacity, w - 1, workers, n)
                  + Column(keys, capacity, w - 1, workers, n)
  {
    hide Column;
  }

  lemma Exchange(x: multiset<nat>, p: multiset<nat>, y: multiset<nat>, q: multiset<nat>, column: multiset<nat>,
                 chunk: multiset<nat>)
    requires x + p == y + q
    ensures (x + (column + chunk)) + p == (y + column) + (q + chunk)
  {
    forall k ensures ((x + (column + chunk)) + p)[k] == ((y + column) + (q + chunk))[k] {
      assert (x + p)[k] == (y + q)[k];
    }
  }

  lemma Cancel(a: multiset<nat>, b: multiset<nat>, c: multiset<nat>)
    requires a + c == c + b
    ensures a == b
  {
    forall k ensures a[k] == b[k] {
      assert (a + c)[k] == (c + b)[k];
    }
  }

  /** One more run for each of the first `w` workers. */
  lemma {:induction false} NextRow(keys: seq<nat>, capacity: nat, w: nat, workers: nat, n: nat)
    requires w <= workers
    ensures Columns(keys, capacity, w, workers, n + 1) + Chunks(keys, capacity, n * workers)
         == Columns(keys, capacity, w, workers, n) + Chunks(keys, capacity, n * workers + w)
  {
    hide Chunk, Column, Chunks, Columns;
    NextWorker(keys, capacity, w, workers, n);
    NextWorker(keys, capacity, w, workers, n + 1);
    if w > 0 {
      NextRow(keys, capacity, w - 1, workers, n);
      NextColumn(keys, capacity, w - 1, workers, n);
      NextChunk(keys, capacity, n * workers + (w - 1));
      assert n * workers + (w - 1) + 1 == n * workers + w;
      Exchange(Columns(keys, capacity, w - 1, workers, n + 1), Chunks(keys, capacity, n * workers),
               Columns(keys, capacity, w - 1, workers, n), Chunks(keys, capacity, n * workers + (w - 1)),
               Column(keys, capacity, w - 1, workers, n), multiset(Chunk(keys, capacity, n * workers + (w - 1))));
    }
  }

  /** Dealt out to the workers or taken in order, the runs hold the same rows. */
  lemma {:induction false} StridesCover(keys: seq<nat>, capacity: nat, workers: nat, n: nat)
    ensures Columns(keys, capacity, workers, workers, n) == Chunks(keys, capacity, n * workers)
  {
    hide Chunk, Column, Chunks, Columns;
    if n == 0 {
      NoColumns(keys, capacity, workers, workers);
      NoChunks(keys, capacity);
    } else {
      StridesCover(keys, capacity, workers, n - 1);
      NextRow(keys, capacity, workers, workers, n - 1);
      assert n * workers == (n - 1) * workers + workers;
      Cancel(Columns(keys, capacity, workers, workers, n), Chunks(keys, capacity, n * workers),
             Chunks(keys, capacity, (n - 1) * workers));
    }
  }

  lemma NoChunks(keys: seq<nat>, capacity: nat)
    ensures Chunks(keys, capacity, 0) == multiset{}
  {
  }

  lemma {:induction false} NoColumns(keys: seq<nat>, capacity: nat, w: nat, workers: nat)
    ensures Columns(keys, capacity, w, workers, 0) == multiset{}
  {
    if w > 0 {
      NoColumns(keys, capacity, w - 1, workers);
    }
  }

  /** Behind the last run there is nothing. */
  lemma {:induction false} ColumnEnds(keys: seq<nat>, capacity: nat, worker: nat, workers: nat, n: nat, m: nat)
    requires n <= m && workers >= 1 && capacity >= 1 && (n * workers + worker) * capacity >= |keys|
    ensures Column(keys, capacity, worker, workers, m) == Column(keys, capacity, worker, workers, n)
    decreases m
  {
    hide Column, Chunk;
    if n < m {
      ColumnEnds(keys, capacity, worker, workers, n, m - 1);
      LaterIsLarger(n, m - 1, workers, worker, capacity);
      NextColumn(keys, capacity, worker, workers, m - 1);
      NoRows(keys, capacity, (m - 1) * workers + worker);
    }
  }

  lemma NoRows(keys: seq<nat>, capacity: nat, run: nat)
    requires run * capacity >= |keys|
    ensures Chunk(keys, capacity, run) == []
  {
  }

  lemma LaterIsLarger(n: nat, m: nat, workers: nat, worker: nat, capacity: nat)
    requires n <= m
    ensures (m * workers + worker) * capacity >= (n * workers + worker) * capacity
  {
    assert m * workers >= n * workers;
    var a, b := m * workers + worker, n * workers + worker;
    assert a * capacity >= b * capacity;
  }

  function DivCeil(a: nat, b: nat): nat
    requires b >= 1
  {
    (a + b - 1) / b
  }

  lemma DivCeilCovers(a: nat, b: nat, n: nat)
    requires b >= 1
    ensures n < DivCeil(a, b) <==> n * b < a
  {
    var q := DivCeil(a, b);
    assert q * b <= a + b - 1 < (q + 1) * b;
    if n < q {
      assert n * b <= (q - 1) * b;
    } else {
      assert n * b >= q * b;
    }
  }

  /** Loads and sorts the rows of one run. */
  method MakeRun(keys: seq<nat>, capacity: nat, run: nat, passes: nat) returns (run': seq<nat>)
    requires run * capacity < |keys| && Narrow(keys, passes)
    ensures Sorted(run') && multiset(run') == multiset(Chunk(keys, capacity, run))
  {
    hide Sorted, Radix, Narrow, Chunk;
    var first := run * capacity;
    var rows := if |keys| - first < capacity then |keys| - first else capacity;
    var loaded := new nat[rows](i requires 0 <= i < rows => keys[first + i]);
    LoadedIsChunk(keys, capacity, run, loaded[..]);
    var scratch := new nat[rows](_ => 0);
    ChunkIsNarrow(keys, capacity, run, passes);
    var sorted, _ := RadixSort(loaded, scratch, passes);
    run' := sorted[..];
  }

  /** The sorted runs of one worker. */
  method MakeRuns(keys: seq<nat>, capacity: nat, worker: nat, workers: nat, passes: nat) returns (runs: seq<seq<nat>>)
    requires capacity >= 1 && worker < workers && Narrow(keys, passes)
    ensures AllSorted(runs)
    ensures All(runs) == Column(keys, capacity, worker, workers, DivCeil(|keys|, capacity))
  {
    hide All, Sorted, Column, DivCeil, Radix, Narrow, Chunk;
    var count := DivCeil(|keys|, capacity);
    runs := [];
    NoRuns();
    NextColumn(keys, capacity, worker, workers, 0);
    ghost var n := 0;
    var run := worker;
    while run < count
      invariant run == n * workers + worker && AllSorted(runs) && n <= count
      invariant All(runs) == Column(keys, capacity, worker, workers, n)
      decreases count - run
    {
      DivCeilCovers(|keys|, capacity, run);
      var sorted := MakeRun(keys, capacity, run, passes);
      AllPush(runs, sorted);
      NextColumn(keys, capacity, worker, workers, n);
      runs := runs + [sorted];
      n := n + 1;
      run := run + workers;
    }
    DivCeilCovers(|keys|, capacity, run);
    ColumnEnds(keys, capacity, worker, workers, n, count);
  }

  lemma LoadedIsChunk(keys: seq<nat>, capacity: nat, run: nat, loaded: seq<nat>)
    requires run * capacity < |keys|
    requires |loaded| == (if |keys| - run * capacity < capacity then |keys| - run * capacity else capacity)
    requires forall i | 0 <= i < |loaded| :: loaded[i] == keys[run * capacity + i]
    ensures loaded == Chunk(keys, capacity, run)
  {
  }

  lemma ChunkIsNarrow(keys: seq<nat>, capacity: nat, run: nat, passes: nat)
    requires Narrow(keys, passes)
    ensures Narrow(Chunk(keys, capacity, run), passes)
  {
    assert forall k | k in Chunk(keys, capacity, run) :: k in keys;
  }

  /** The external sort: runs made by several workers, merged into one stream. */
  method SortKeys(keys: seq<nat>, capacity: nat, workers: nat, passes: nat) returns (out: seq<nat>)
    requires capacity >= 1 && workers >= 1 && Narrow(keys, passes)
    ensures Sorted(out) && multiset(out) == multiset(keys)
  {
    hide All, Sorted, Column, DivCeil, Chunk;
    var paths := [];
    NoRuns();
    ghost var count := DivCeil(|keys|, capacity);
    for worker := 0 to workers
      invariant AllSorted(paths)
      invariant All(paths) == Columns(keys, capacity, worker, workers, count)
    {
      var runs := MakeRuns(keys, capacity, worker, workers, passes);
      AllConcat(paths, runs);
      paths := paths + runs;
    }
    StridesCover(keys, capacity, workers, count);
    ChunksArePrefix(keys, capacity, count * workers);
    DivCeilCovers(|keys|, capacity, count);
    CoversAll(count, workers, capacity, |keys|);
    assert keys[..|keys|] == keys;
    out := MergeGenerations(paths);
  }

  lemma CoversAll(count: nat, workers: nat, capacity: nat, n: nat)
    requires count * capacity >= n && workers >= 1
    ensures count * workers * capacity >= n
  {
    assert count * workers >= count;
    var a := count * workers;
    assert a * capacity >= count * capacity;
  }
}
