/** The stable byte-wise sort of key arrays (`radix_sort` in `index_builder.rs`).  Keys stand for
    their numeric value. */
module RadixSorting {
  import opened Bytes

  const BINS: nat := 256

  /** One counter per bin. */
  type Counters = s: seq<nat> | |s| == BINS witness seq(BINS, _ => 0)

  /** The key without its lowest `digits` bytes: a shift by that many bytes. */
  function High(key: nat, digits: nat): nat {
    if digits == 0 then key else High(key, digits - 1) / 256
  }

  function Digit(key: nat, pass: nat): (d: nat)
    ensures d < BINS
  {
    High(key, pass) % 256
  }

  // ---------------------------------------------------------------- what one pass does

  function Filter(keys: seq<nat>, pass: nat, bin: nat): (r: seq<nat>)
    ensures |r| <= |keys|
  {
    if keys == [] then []
    else
      var last := keys[|keys| - 1];
      Filter(keys[..|keys| - 1], pass, bin) + if Digit(last, pass) == bin then [last] else []
  }

  /** The keys of the bins below `n`, bin by bin. */
  function Bins(keys: seq<nat>, pass: nat, n: nat): seq<nat> {
    if n == 0 then [] else Bins(keys, pass, n - 1) + Filter(keys, pass, n - 1)
  }

  function Scattered(keys: seq<nat>, pass: nat): seq<nat> {
    Bins(keys, pass, BINS)
  }

  function Radix(keys: seq<nat>, passes: nat): seq<nat> {
    if passes == 0 then keys else Scattered(Radix(keys, passes - 1), passes - 1)
  }

  lemma FilterPush(keys: seq<nat>, key: nat, pass: nat, bin: nat)
    ensures Filter(keys + [key], pass, bin) == Filter(keys, pass, bin) + if Digit(key, pass) == bin then [key] else []
  {
    assert (keys + [key])[..|keys|] == keys;
  }

  lemma {:induction false} FilterMembers(keys: seq<nat>, pass: nat, bin: nat)
    ensures forall k | k in Filter(keys, pass, bin) :: Digit(k, pass) == bin && k in keys
    decreases |keys|
  {
    if keys != [] {
      FilterMembers(keys[..|keys| - 1], pass, bin);
    }
  }

  lemma {:induction false} BinMembers(keys: seq<nat>, pass: nat, n: nat)
    ensures forall k | k in Bins(keys, pass, n) :: Digit(k, pass) < n && k in keys
  {
    if n > 0 {
      BinMembers(keys, pass, n - 1);
      FilterMembers(keys, pass, n - 1);
    }
  }

  // ---------------------------------------------------------------- a pass permutes

  lemma {:induction false} BinsPush(keys: seq<nat>, key: nat, pass: nat, n: nat)
    ensures multiset(Bins(keys + [key], pass, n)) == multiset(Bins(keys, pass, n)) + if Digit(key, pass) < n then
            multiset{key} else multiset{}
  {
    if n > 0 {
      BinsPush(keys, key, pass, n - 1);
      FilterPush(keys, key, pass, n - 1);
    }
  }

  lemma {:induction false} NoBins(pass: nat, n: nat)
    ensures Bins([], pass, n) == []
  {
    if n > 0 {
      NoBins(pass, n - 1);
    }
  }

  lemma {:induction false} ScatterPermutes(keys: seq<nat>, pass: nat)
    ensures multiset(Scattered(keys, pass)) == multiset(keys)
    ensures |Scattered(keys, pass)| == |keys|
    decreases |keys|
  {
    if keys == [] {
      NoBins(pass, BINS);
    } else {
      var init, last := keys[..|keys| - 1], keys[|keys| - 1];
      ScatterPermutes(init, pass);
      assert keys == init + [last];
      BinsPush(init, last, pass, BINS);
    }
    assert |Scattered(keys, pass)| == |multiset(Scattered(keys, pass))| == |multiset(keys)|;
  }

  // ---------------------------------------------------------------- a pass sorts by one more digit

  /** The value of the lowest `digits` bytes. */
  ghost function Low(key: nat, digits: nat): (low: nat)
    ensures low < Pow256(digits)
  {
    if digits == 0 then 0
    else
      Below(Digit(key, digits - 1), Low(key, digits - 1), Pow256(digits - 1));
      Digit(key, digits - 1) * Pow256(digits - 1) + Low(key, digits - 1)
  }

  lemma Below(d: nat, low: nat, p: nat)
    requires d < 256 && low < p
    ensures d * p + low < 256 * p
  {
    assert d * p <= 255 * p;
  }

  lemma {:induction false} HighLow(key: nat, digits: nat)
    ensures key == High(key, digits) * Pow256(digits) + Low(key, digits)
  {
    if digits > 0 {
      HighLow(key, digits - 1);
      DigitOnTop(High(key, digits), Digit(key, digits - 1), Pow256(digits - 1));
    }
  }

  lemma DigitOnTop(h: nat, d: nat, p: nat)
    ensures (256 * h + d) * p == h * (256 * p) + d * p
  {
  }

  /** A key that has no more bytes is its low bytes. */
  lemma NarrowIsLow(key: nat, digits: nat)
    requires key < Pow256(digits)
    ensures Low(key, digits) == key
  {
    hide Low, Pow256, High;
    HighLow(key, digits);
    NoMultiple(High(key, digits), Pow256(digits), Low(key, digits));
  }

  lemma NoMultiple(h: nat, p: nat, low: nat)
    requires h * p + low < p
    ensures h == 0
  {
    assert h > 0 ==> h * p >= p;
  }

  ghost predicate SortedLow(keys: seq<nat>, digits: nat) {
    forall i, j | 0 <= i < j < |keys| :: Low(keys[i], digits) <= Low(keys[j], digits)
  }

  ghost predicate Sorted(keys: seq<nat>) {
    forall i, j | 0 <= i < j < |keys| :: keys[i] <= keys[j]
  }

  /** With equal digits the lower ones decide; otherwise the digit does. */
  lemma LowOrder(a: nat, b: nat, digits: nat)
    requires Digit(a, digits) < Digit(b, digits) || (Digit(a, digits) == Digit(b, digits)
                                                     && Low(a, digits) <= Low(b, digits))
    ensures Low(a, digits + 1) <= Low(b, digits + 1)
  {
    hide Pow256, High;
    if Digit(a, digits) < Digit(b, digits) {
      DigitFirst(Digit(a, digits), Digit(b, digits), Pow256(digits), Low(a, digits));
    }
  }

  lemma DigitFirst(d: nat, e: nat, p: nat, low: nat)
    requires d < e && low < p
    ensures d * p + low <= e * p
  {
    assert (d + 1) * p <= e * p;
    assert (d + 1) * p == d * p + p;
  }

  lemma {:induction false} FilterSorted(keys: seq<nat>, pass: nat, bin: nat)
    requires SortedLow(keys, pass)
    ensures SortedLow(Filter(keys, pass, bin), pass)
    decreases |keys|
  {
    if keys != [] {
      var init, last := keys[..|keys| - 1], keys[|keys| - 1];
      FilterSorted(init, pass, bin);
      FilterMembers(init, pass, bin);
      forall k | k in init ensures Low(k, pass) <= Low(last, pass) {
        var i :| 0 <= i < |init| && init[i] == k;
        assert keys[i] == k && keys[|keys| - 1] == last;
      }
    }
  }

  lemma {:induction false} BinsSorted(keys: seq<nat>, pass: nat, n: nat)
    requires SortedLow(keys, pass)
    ensures SortedLow(Bins(keys, pass, n), pass + 1)
  {
    hide Low, Digit, Filter;
    if n > 0 {
      BinsSorted(keys, pass, n - 1);
      var front, back := Bins(keys, pass, n - 1), Filter(keys, pass, n - 1);
      BinMembers(keys, pass, n - 1);
      FilterMembers(keys, pass, n - 1);
      FilterSorted(keys, pass, n - 1);
      forall i, j | 0 <= i < j < |front + back| ensures Low((front + back)[i], pass + 1)
          <= Low((front + back)[j], pass + 1) {
        var a, b := (front + back)[i], (front + back)[j];
        if i < |front| <= j {
          assert a in front && b in back;
          LowOrder(a, b, pass);
        } else if i >= |front| {
          assert a == back[i - |front|] && b == back[j - |front|] && a in back && b in back;
          LowOrder(a, b, pass);
        }
      }
    }
  }

  lemma ScatterSorts(keys: seq<nat>, pass: nat)
    requires SortedLow(keys, pass)
    ensures SortedLow(Scattered(keys, pass), pass + 1)
  {
    BinsSorted(keys, pass, BINS);
  }

  /** Sorting by the digits from the lowest up sorts the keys, and only reorders them. */
  lemma {:induction false} RadixSorts(keys: seq<nat>, passes: nat)
    ensures SortedLow(Radix(keys, passes), passes)
    ensures multiset(Radix(keys, passes)) == multiset(keys)
  {
    hide Scattered, High, Pow256;
    if passes > 0 {
      RadixSorts(keys, passes - 1);
      ScatterSorts(Radix(keys, passes - 1), passes - 1);
      ScatterPermutes(Radix(keys, passes - 1), passes - 1);
    }
  }

  ghost predicate Narrow(keys: seq<nat>, passes: nat) {
    forall k | k in keys :: k < Pow256(passes)
  }

  lemma SortedWhenNarrow(keys: seq<nat>, sorted: seq<nat>, passes: nat)
    requires SortedLow(sorted, passes) && multiset(sorted) == multiset(keys) && Narrow(keys, passes)
    ensures Sorted(sorted)
  {
    hide Low, Pow256;
    forall k | k in sorted ensures Low(k, passes) == k {
      assert k in multiset(sorted);
      assert k in keys;
      NarrowIsLow(k, passes);
    }
    assert forall i | 0 <= i < |sorted| :: sorted[i] in sorted;
  }

  // ---------------------------------------------------------------- constant passes

  lemma {:induction false} FilterAll(keys: seq<nat>, pass: nat, bin: nat, other: nat)
    requires forall k | k in keys :: Digit(k, pass) == bin
    ensures Filter(keys, pass, other) == if other == bin then keys else []
    decreases |keys|
  {
    if keys != [] {
      FilterAll(keys[..|keys| - 1], pass, bin, other);
    }
  }

  lemma {:induction false} FullFilter(keys: seq<nat>, pass: nat, bin: nat)
    requires |Filter(keys, pass, bin)| == |keys|
    ensures forall k | k in keys :: Digit(k, pass) == bin
    decreases |keys|
  {
    if keys != [] {
      FullFilter(keys[..|keys| - 1], pass, bin);
    }
  }

  lemma {:induction false} OneBin(keys: seq<nat>, pass: nat, bin: nat, n: nat)
    requires forall k | k in keys :: Digit(k, pass) == bin
    ensures Bins(keys, pass, n) == if n > bin then keys else []
  {
    hide Filter, Digit;
    if n > 0 {
      FilterAll(keys, pass, bin, n - 1);
      OneBin(keys, pass, bin, n - 1);
    }
  }

  /** A pass whose keys all fall in one bin changes nothing. */
  lemma ConstantPass(keys: seq<nat>, pass: nat, bin: nat)
    requires bin < BINS && |Filter(keys, pass, bin)| == |keys|
    ensures Scattered(keys, pass) == keys
  {
    FullFilter(keys, pass, bin);
    OneBin(keys, pass, bin, BINS);
  }

  // ---------------------------------------------------------------- the array algorithm

  /** How many keys fall in the bins below `n`. */
  ghost function Start(keys: seq<nat>, pass: nat, n: nat): nat {
    |Bins(keys, pass, n)|
  }

  ghost predicate Counts(keys: seq<nat>, pass: nat, counts: Counters) {
    forall bin | 0 <= bin < BINS :: counts[bin] == |Filter(keys, pass, bin)|
  }

  /** The keys seen so far lie at the front of their bins' places. */
  ghost predicate Placed(all: seq<nat>, seen: seq<nat>, pass: nat, scratch: seq<nat>, offsets: Counters) {
    && |scratch| == |all|
    && forall bin | 0 <= bin < BINS :: BinPlaced(all, seen, pass, scratch, offsets[bin], bin)
  }

  /** The keys seen so far that belong to a bin stand, in order, at its start. */
  ghost predicate BinPlaced(all: seq<nat>, seen: seq<nat>, pass: nat, scratch: seq<nat>, offset: nat, bin: nat) {
    var start, part := Start(all, pass, bin), Filter(seen, pass, bin);
    offset == start + |part| <= |scratch| && scratch[start..start + |part|] == part
  }

  lemma {:induction false} StartsGrow(keys: seq<nat>, pass: nat, low: nat, high: nat)
    requires low <= high
    ensures Start(keys, pass, low) <= Start(keys, pass, high)
    ensures low < high ==> Start(keys, pass, low) + |Filter(keys, pass, low)| <= Start(keys, pass, high)
    decreases high
  {
    if low < high {
      StartsGrow(keys, pass, low, high - 1);
    }
  }

  lemma {:induction false} FilterGrows(keys: seq<nat>, i: nat, pass: nat, bin: nat)
    requires i <= |keys|
    ensures |Filter(keys[..i], pass, bin)| <= |Filter(keys, pass, bin)|
    decreases |keys|
  {
    if i < |keys| {
      FilterGrows(keys[..|keys| - 1], i, pass, bin);
      assert keys[..|keys| - 1][..i] == keys[..i];
    } else {
      assert keys[..i] == keys;
    }
  }

  lemma NothingPlaced(all: seq<nat>, pass: nat, scratch: seq<nat>, offsets: Counters)
    requires |scratch| == |all| && forall bin | 0 <= bin < BINS :: offsets[bin] == Start(all, pass, bin)
    ensures Placed(all, [], pass, scratch, offsets)
  {
    ScatterPermutes(all, pass);
    forall bin | 0 <= bin < BINS ensures Start(all, pass, bin) <= |all| {
      StartsGrow(all, pass, bin, BINS);
    }
  }

  /** Where the next key goes, and that no other bin's keys are there. */
  lemma SlotKept(scratch: seq<nat>, at: nat, key: nat, start: nat, length: nat)
    requires at < |scratch| && start + length <= |scratch| && !(start <= at < start + length)
    ensures scratch[at := key][start..start + length] == scratch[start..start + length]
  {
  }

  lemma BinStep(all: seq<nat>, i: nat, pass: nat, scratch: seq<nat>, offset: nat, b: nat, at: nat)
    requires i < |all| == |scratch| && b < BINS && BinPlaced(all, all[..i], pass, scratch, offset, b)
    requires BinPlaced(all, all[..i], pass, scratch, at, Digit(all[i], pass)) && at < |all|
    ensures BinPlaced(all, all[..i + 1], pass, scratch[at := all[i]],
                      if b == Digit(all[i], pass) then offset + 1 else offset, b)
  {
    hide Digit, Filter, Start;
    var key := all[i];
    var bin := Digit(key, pass);
    assert all[..i + 1] == all[..i] + [key];
    FilterPush(all[..i], key, pass, b);
    FilterPush(all[..i], key, pass, bin);
    FilterGrows(all, i + 1, pass, bin);
    FilterGrows(all, i, pass, b);
    if b != bin {
      StartsGrow(all, pass, if b < bin then b else bin, if b < bin then bin else b);
      SlotKept(scratch, at, key, Start(all, pass, b), |Filter(all[..i], pass, b)|);
    } else {
      SlotFilled(scratch, key, Start(all, pass, b), |Filter(all[..i], pass, b)|);
    }
  }

  lemma SlotFilled(scratch: seq<nat>, key: nat, start: nat, length: nat)
    requires start + length < |scratch|
    ensures scratch[start + length := key][start..start + length + 1] == scratch[start..start + length] + [key]
  {
  }

  lemma NextPlace(all: seq<nat>, i: nat, pass: nat, scratch: seq<nat>, offsets: Counters)
    requires i < |all| && Placed(all, all[..i], pass, scratch, offsets)
    ensures var bin := Digit(all[i], pass);
            && offsets[bin] < |all|
            && Placed(all, all[..i + 1], pass, scratch[offsets[bin] := all[i]], offsets[bin := offsets[bin] + 1])
  {
    hide Digit, BinPlaced;
    var key := all[i];
    var bin := Digit(key, pass);
    PlaceIsFree(all, i, pass, scratch, offsets[bin]);
    var scratch', offsets' := scratch[offsets[bin] := key], offsets[bin := offsets[bin] + 1];
    forall b | 0 <= b < BINS ensures BinPlaced(all, all[..i + 1], pass, scratch', offsets'[b], b) {
      BinStep(all, i, pass, scratch, offsets[b], b, offsets[bin]);
    }
  }

  lemma PlaceIsFree(all: seq<nat>, i: nat, pass: nat, scratch: seq<nat>, at: nat)
    requires i < |all| && |scratch| == |all| && BinPlaced(all, all[..i], pass, scratch, at, Digit(all[i], pass))
    ensures at < |all|
  {
    hide Digit, Bins;
    var key := all[i];
    var bin := Digit(key, pass);
    assert all[..i + 1] == all[..i] + [key];
    ScatterPermutes(all, pass);
    FilterPush(all[..i], key, pass, bin);
    FilterGrows(all, i + 1, pass, bin);
    StartsGrow(all, pass, bin, BINS);
  }

  lemma {:induction false} AllPlaced(all: seq<nat>, pass: nat, scratch: seq<nat>, offsets: Counters, n: nat)
    requires Placed(all, all, pass, scratch, offsets) && n <= BINS
    ensures Start(all, pass, n) <= |all| && scratch[..Start(all, pass, n)] == Bins(all, pass, n)
  {
    hide Digit, Filter;
    if n > 0 {
      AllPlaced(all, pass, scratch, offsets, n - 1);
      var start, part := Start(all, pass, n - 1), Filter(all, pass, n - 1);
      assert offsets[n - 1] == start + |part| <= |all| && scratch[start..start + |part|] == part;
      SliceJoin(scratch, start, start + |part|);
    }
  }

  lemma SliceJoin(s: seq<nat>, a: nat, b: nat)
    requires a <= b <= |s|
    ensures s[..b] == s[..a] + s[a..b]
  {
  }

  /** One stable scatter from `keys` to `scratch`, given how many keys fall in each bin. */
  method ScatterPass(keys: array<nat>, scratch: array<nat>, pass: nat, counts: Counters)
    requires keys != scratch && keys.Length == scratch.Length && Counts(keys[..], pass, counts)
    modifies scratch
    ensures scratch[..] == Scattered(keys[..], pass)
  {
    hide Digit, Filter, Placed, Scattered, Bins;
    ghost var all := keys[..];
    var offsets := counts;
    var offset := 0;
    StartIs(all, pass, 0);
    for bin := 0 to BINS
      invariant offset == Start(all, pass, bin)
      invariant forall b | 0 <= b < BINS :: offsets[b] == if b < bin then Start(all, pass, b) else counts[b]
    {
      StartIs(all, pass, bin);
      var length := offsets[bin];
      offsets := offsets[bin := offset];
      offset := offset + length;
    }
    NothingPlaced(all, pass, scratch[..], offsets);
    assert all[..0] == [];
    for i := 0 to keys.Length
      invariant keys[..] == all
      invariant Placed(all, all[..i], pass, scratch[..], offsets)
    {
      var bin := Digit(keys[i], pass);
      NextPlace(all, i, pass, scratch[..], offsets);
      scratch[offsets[bin]] := keys[i];
      offsets := offsets[bin := offsets[bin] + 1];
    }
    assert all[..keys.Length] == all;
    AllPlaced(all, pass, scratch[..], offsets, BINS);
    ScatterPermutes(all, pass);
    WholeScratch(all, pass, scratch[..]);
  }

  lemma StartIs(keys: seq<nat>, pass: nat, n: nat)
    ensures Start(keys, pass, 0) == 0
    ensures Start(keys, pass, n + 1) == Start(keys, pass, n) + |Filter(keys, pass, n)|
  {
  }

  lemma WholeScratch(all: seq<nat>, pass: nat, scratch: seq<nat>)
    requires |scratch| == |all| && Start(all, pass, BINS) <= |all|
             && scratch[..Start(all, pass, BINS)] == Bins(all, pass, BINS)
    ensures scratch == Scattered(all, pass)
  {
    ScatterPermutes(all, pass);
    assert scratch[..|scratch|] == scratch;
  }

  /** Counts one digit of every key. */
  method CountDigits(keys: array<nat>, pass: nat) returns (counts: Counters)
    ensures Counts(keys[..], pass, counts)
  {
    hide Digit;
    counts := seq(BINS, _ => 0);
    for i := 0 to keys.Length
      invariant Counts(keys[..i], pass, counts)
    {
      var bin := Digit(keys[i], pass);
      CountNext(keys[..i], keys[i], pass, counts);
      assert keys[..i + 1] == keys[..i] + [keys[i]];
      counts := counts[bin := counts[bin] + 1];
    }
    assert keys[..keys.Length] == keys[..];
  }

  lemma CountNext(keys: seq<nat>, key: nat, pass: nat, counts: Counters)
    requires Counts(keys, pass, counts)
    ensures Counts(keys + [key], pass, counts[Digit(key, pass) := counts[Digit(key, pass)] + 1])
  {
    hide Digit, Filter;
    forall bin | 0 <= bin < BINS
      ensures Filter(keys + [key], pass, bin) == Filter(keys, pass, bin) + if Digit(key, pass) == bin then [key]
              else [] {
      FilterPush(keys, key, pass, bin);
    }
  }

  /** One pass: scatter, unless every key has the same digit.  The array that holds the keys afterwards
      comes first. */
  method Pass(keys: array<nat>, scratch: array<nat>, pass: nat, counts: Counters)
      returns (keys': array<nat>, scratch': array<nat>)
    requires keys != scratch && keys.Length == scratch.Length && Counts(keys[..], pass, counts)
    modifies scratch
    ensures keys' != scratch' && {keys', scratch'} == {keys, scratch}
    ensures keys'[..] == Scattered(old(keys[..]), pass)
  {
    hide Digit, Filter, Scattered;
    if exists bin :: 0 <= bin < BINS && counts[bin] == keys.Length {
      ghost var bin :| 0 <= bin < BINS && counts[bin] == keys.Length;
      ConstantPass(keys[..], pass, bin);
      return keys, scratch;
    }
    ScatterPass(keys, scratch, pass, counts);
    return scratch, keys;
  }

  /** Sorts with one histogram per pass; `sorted` is one of the two arrays. */
  method RadixSort(keys: array<nat>, scratch: array<nat>, passes: nat) returns (sorted: array<nat>, other: array<nat>)
    requires keys != scratch && keys.Length == scratch.Length
    modifies keys, scratch
    ensures sorted != other && {sorted, other} == {keys, scratch}
    ensures sorted[..] == Radix(old(keys[..]), passes)
    ensures multiset(sorted[..]) == multiset(old(keys[..]))
    ensures Narrow(old(keys[..]), passes) ==> Sorted(sorted[..])
  {
    hide Scattered, Counts, SortedLow;
    ghost var all := keys[..];
    sorted, other := keys, scratch;
    for pass := 0 to passes
      invariant sorted != other && {sorted, other} == {keys, scratch}
      invariant sorted[..] == Radix(all, pass)
    {
      var counts := CountDigits(sorted, pass);
      sorted, other := Pass(sorted, other, pass, counts);
    }
    RadixSorts(all, passes);
    if Narrow(all, passes) {
      SortedWhenNarrow(all, sorted[..], passes);
    }
  }

  // ---------------------------------------------------------------- all histograms first

  /** Histograms of the first `n` passes hold for any order of the keys. */
  ghost predicate Histograms(keys: seq<nat>, histograms: seq<Counters>, n: nat) {
    |histograms| == n && forall pass | 0 <= pass < n :: Counts(keys, pass, histograms[pass])
  }

  lemma {:induction false} FilterMultiplicity(keys: seq<nat>, pass: nat, bin: nat, k: nat)
    ensures multiset(Filter(keys, pass, bin))[k] == if Digit(k, pass) == bin then multiset(keys)[k] else 0
    decreases |keys|
  {
    hide Digit;
    if keys != [] {
      var init, last := keys[..|keys| - 1], keys[|keys| - 1];
      FilterMultiplicity(init, pass, bin, k);
      assert keys == init + [last];
      assert multiset(keys) == multiset(init) + multiset{last};
    }
  }

  /** Reordering keys does not change how many have a digit. */
  lemma CountsPermute(keys: seq<nat>, keys': seq<nat>, pass: nat, counts: Counters)
    requires multiset(keys) == multiset(keys') && Counts(keys, pass, counts)
    ensures Counts(keys', pass, counts)
  {
    forall bin | 0 <= bin < BINS ensures |Filter(keys', pass, bin)| == |Filter(keys, pass, bin)| {
      forall k: nat ensures multiset(Filter(keys', pass, bin))[k] == multiset(Filter(keys, pass, bin))[k] {
        FilterMultiplicity(keys, pass, bin, k);
        FilterMultiplicity(keys', pass, bin, k);
      }
      assert multiset(Filter(keys', pass, bin)) == multiset(Filter(keys, pass, bin));
      assert |Filter(keys, pass, bin)| == |multiset(Filter(keys, pass, bin))|;
      assert |Filter(keys', pass, bin)| == |multiset(Filter(keys', pass, bin))|;
    }
  }

  /** Counts every digit of every key in one traversal. */
  method CountAll(keys: array<nat>, passes: nat) returns (histograms: seq<Counters>)
    ensures Histograms(keys[..], histograms, passes)
  {
    hide Digit, Filter, Counts;
    var none: Counters := seq(BINS, _ => 0);
    histograms := seq(passes, _ => none);
    assert keys[..0] == [];
    NothingCounted(none);
    for i := 0 to keys.Length
      invariant Histograms(keys[..i], histograms, passes)
    {
      assert keys[..i + 1] == keys[..i] + [keys[i]];
      for pass := 0 to passes
        invariant |histograms| == passes
        invariant forall p | 0 <= p < passes :: Counts(if p < pass then keys[..i + 1] else keys[..i], p, histograms[p])
      {
        var bin := Digit(keys[i], pass);
        CountNext(keys[..i], keys[i], pass, histograms[pass]);
        histograms := histograms[pass := histograms[pass][bin := histograms[pass][bin] + 1]];
      }
    }
    assert keys[..keys.Length] == keys[..];
  }

  lemma NothingCounted(none: Counters)
    requires forall bin | 0 <= bin < BINS :: none[bin] == 0
    ensures forall pass :: Counts([], pass, none)
  {
  }

  /** The variant for long keys: all histograms are taken before the first scatter. */
  method RadixSortPrecomputed(keys: array<nat>, scratch: array<nat>, passes: nat)
      returns (sorted: array<nat>, other: array<nat>)
    requires keys != scratch && keys.Length == scratch.Length && passes <= 80
    modifies keys, scratch
    ensures sorted != other && {sorted, other} == {keys, scratch}
    ensures sorted[..] == Radix(old(keys[..]), passes)
    ensures multiset(sorted[..]) == multiset(old(keys[..]))
    ensures Narrow(old(keys[..]), passes) ==> Sorted(sorted[..])
  {
    hide Scattered, Counts, SortedLow;
    ghost var all := keys[..];
    var histograms := CountAll(keys, passes);
    sorted, other := keys, scratch;
    for pass := 0 to passes
      invariant sorted != other && {sorted, other} == {keys, scratch}
      invariant sorted[..] == Radix(all, pass)
    {
      RadixSorts(all, pass);
      CountsPermute(all, sorted[..], pass, histograms[pass]);
      sorted, other := Pass(sorted, other, pass, histograms[pass]);
    }
    RadixSorts(all, passes);
    if Narrow(all, passes) {
      SortedWhenNarrow(all, sorted[..], passes);
    }
  }
}
