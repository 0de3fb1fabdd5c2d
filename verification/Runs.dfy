/** Runs of equal prefixes in a sorted stream of which only the first field that differs from the record
    before is known: what the sampler of `index_stats.rs` counts. */
module Runs {

  /** Rows `a..b` share the prefix that ends at field `c`. */
  ghost predicate SamePrefix(ch: seq<nat>, a: nat, b: nat, c: nat)
    requires a <= b < |ch|
  {
    forall j | a < j <= b :: ch[j] > c
  }

  /** First row of the run of equal prefixes that row `r` belongs to. */
  ghost function RunStart(ch: seq<nat>, r: nat, c: nat): (s: nat)
    requires r < |ch|
    ensures s <= r && SamePrefix(ch, s, r, c)
    ensures s == 0 || ch[s] <= c
  {
    if r == 0 || ch[r] <= c then r else RunStart(ch, r - 1, c)
  }

  /** One past the last row of the run of equal prefixes that row `r` belongs to. */
  ghost function RunEnd(ch: seq<nat>, r: nat, c: nat): (e: nat)
    requires r < |ch|
    ensures r < e <= |ch| && SamePrefix(ch, r, e - 1, c)
    ensures e == |ch| || ch[e] <= c
    decreases |ch| - r
  {
    if r + 1 == |ch| || ch[r + 1] <= c then r + 1 else RunEnd(ch, r + 1, c)
  }

  ghost function RunLength(ch: seq<nat>, r: nat, c: nat): (n: nat)
    requires r < |ch|
    ensures n >= 1
  {
    RunEnd(ch, r, c) - RunStart(ch, r, c)
  }

  /** Number of runs that end before the run of row `r`. */
  ghost function RunsBefore(ch: seq<nat>, r: nat, c: nat): (n: nat)
    requires r < |ch|
    ensures n <= r
  {
    if r == 0 then 0 else RunsBefore(ch, r - 1, c) + (if ch[r] <= c then 1 else 0)
  }

  lemma StartIsUnique(ch: seq<nat>, s: nat, r: nat, c: nat)
    requires s <= r < |ch| && SamePrefix(ch, s, r, c)
    requires s == 0 || ch[s] <= c
    ensures RunStart(ch, r, c) == s
  {
  }

  lemma EndIsUnique(ch: seq<nat>, r: nat, e: nat, c: nat)
    requires r < e <= |ch| && SamePrefix(ch, r, e - 1, c)
    requires e == |ch| || ch[e] <= c
    ensures RunEnd(ch, r, c) == e
  {
  }

  /** A run that reaches the end of the stream is the run of the last row. */
  lemma OpenRun(ch: seq<nat>, r: nat, c: nat)
    requires r < |ch|
    ensures RunEnd(ch, r, c) == |ch| <==> RunStart(ch, |ch| - 1, c) <= r
    ensures RunEnd(ch, r, c) == |ch| ==> RunStart(ch, |ch| - 1, c) == RunStart(ch, r, c)
  {
    var last := |ch| - 1;
    var s := RunStart(ch, last, c);
    if s <= r {
      EndIsUnique(ch, r, |ch|, c);
    }
    if RunEnd(ch, r, c) == |ch| {
      var t := RunStart(ch, r, c);
      assert SamePrefix(ch, t, last, c);
      StartIsUnique(ch, t, last, c);
    }
  }

  /** One more row leaves everything about earlier rows alone, except that runs it joins grow. */
  lemma Extend(ch: seq<nat>, f: nat, r: nat, c: nat)
    requires r < |ch|
    ensures var ch' := ch + [f];
            && RunStart(ch', r, c) == RunStart(ch, r, c)
            && RunsBefore(ch', r, c) == RunsBefore(ch, r, c)
            && RunEnd(ch', r, c) == if RunEnd(ch, r, c) == |ch| && f > c then |ch| + 1 else RunEnd(ch, r, c)
  {
    var ch' := ch + [f];
    StartIsUnique(ch', RunStart(ch, r, c), r, c);
    ExtendRunsBefore(ch, f, r, c);
    var e := RunEnd(ch, r, c);
    if e == |ch| && f > c {
      EndIsUnique(ch', r, |ch| + 1, c);
    } else {
      EndIsUnique(ch', r, e, c);
    }
  }

  lemma ExtendRunsBefore(ch: seq<nat>, f: nat, r: nat, c: nat)
    requires r < |ch|
    ensures RunsBefore(ch + [f], r, c) == RunsBefore(ch, r, c)
  {
  }
}
