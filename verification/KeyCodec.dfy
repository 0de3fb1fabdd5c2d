/** Packing integer tuples into sort keys that span only the observed ranges (`IntegerSpool`, `Codec`
    and the `SortKey` implementations in `index_builder.rs`).  A key stands for its numeric value. */
module KeyCodec {
  import opened BitOps
  import opened Bytes
  import opened Powers
  import opened RadixSorting
  import opened Results

  const SIGN: nat := 0x8000_0000_0000_0000

  /** Unused fields are zero. */
  type Tuple = t: seq<i64> | |t| == 4 witness [0, 0, 0, 0]
  type Words = w: seq<u64> | |w| == 4 witness [0, 0, 0, 0]

  /** Exclusive or with the sign bit. */
  function Flip(word: u64): u64 {
    if word >= SIGN then word - SIGN else word + SIGN
  }

  /** The value as a word whose unsigned order is the signed order. */
  function Sortable(value: i64): u64 {
    Flip(ToU64(value))
  }

  function Restored(word: u64): i64 {
    ToI64(Flip(word))
  }

  lemma SortableIs(value: i64)
    ensures Sortable(value) == value + SIGN && Restored(Sortable(value)) == value
  {
  }

  // ---------------------------------------------------------------- the spool

  /** The least and greatest value of a field; without rows, an empty range. */
  ghost predicate Bounds(rows: seq<Tuple>, field: nat, low: u64, high: u64)
    requires field < 4
  {
    if rows == [] then low == U64 - 1 && high == 0
    else
      && (forall i | 0 <= i < |rows| :: low <= Sortable(rows[i][field]) <= high)
      && (exists i :: 0 <= i < |rows| && Sortable(rows[i][field]) == low)
      && exists i :: 0 <= i < |rows| && Sortable(rows[i][field]) == high
  }

  lemma BoundsPush(rows: seq<Tuple>, field: nat, low: u64, high: u64, row: Tuple)
    requires field < 4 && Bounds(rows, field, low, high)
    ensures var v := Sortable(row[field]); Bounds(rows + [row], field,
                                                  if v < low then v else low, if v > high then v else high)
  {
    var v := Sortable(row[field]);
    var rows' := rows + [row];
    assert Sortable(rows'[|rows|][field]) == v;
    if rows != [] {
      var i :| 0 <= i < |rows| && Sortable(rows[i][field]) == low;
      var j :| 0 <= j < |rows| && Sortable(rows[j][field]) == high;
      assert Sortable(rows'[i][field]) == low && Sortable(rows'[j][field]) == high;
    }
  }

  class IntegerSpool {
    const fields: nat
    var rows: seq<Tuple>
    var isSealed: bool
    var minimum: Words
    var maximum: Words

    ghost predicate Valid()
      reads this
    {
      1 <= fields <= 4 && forall f | 0 <= f < fields :: Bounds(rows, f, minimum[f], maximum[f])
    }

    constructor (fields: nat)
      requires 1 <= fields <= 4
      ensures Valid() && this.fields == fields && rows == [] && !isSealed
    {
      this.fields, rows, isSealed := fields, [], false;
      minimum, maximum := seq(4, _ => U64 - 1), seq(4, _ => 0);
    }

    method Push(values: seq<i64>) returns (r: Result<()>)
      requires Valid()
      modifies this
      ensures Valid() && isSealed == old(isSealed)
      ensures r.Ok? <==> |values| == fields && !isSealed
      ensures rows == if r.Ok? then old(rows) + [values + seq(4 - fields, _ => 0)] else old(rows)
    {
      if |values| != fields {
        return Err("integer index tuple has an unexpected field count");
      }
      if isSealed {
        return Err("integer index tuple spool is already sealed");
      }
      var row: Tuple := values + seq(4 - fields, _ => 0);
      ghost var low, high := minimum, maximum;
      for field := 0 to fields
        invariant rows == old(rows) && isSealed == old(isSealed)
        invariant forall f | 0 <= f < fields ::
                    && minimum[f] == (if f < field && Sortable(row[f]) < low[f] then Sortable(row[f]) else low[f])
                    && maximum[f] == (if f < field && Sortable(row[f]) > high[f] then Sortable(row[f]) else high[f])
      {
        var ordered := Sortable(values[field]);
        if ordered < minimum[field] {
          minimum := minimum[field := ordered];
        }
        if ordered > maximum[field] {
          maximum := maximum[field := ordered];
        }
      }
      forall f | 0 <= f < fields ensures Bounds(rows + [row], f, minimum[f], maximum[f]) {
        BoundsPush(rows, f, low[f], high[f], row);
      }
      rows := rows + [row];
      return Ok(());
    }
  }

  // ---------------------------------------------------------------- the codec

  datatype IndexSpec = IndexSpec(sortedFields: seq<nat>, recordFields: seq<nat>, keyColumns: nat)

  /** The fields in the order of their first occurrence. */
  function FirstOccurrences(fields: seq<nat>): (r: seq<nat>)
    ensures forall f :: f in r <==> f in fields
    ensures forall i, j | 0 <= i < j < |r| :: r[i] != r[j]
  {
    if fields == [] then []
    else
      var init, last := FirstOccurrences(fields[..|fields| - 1]), fields[|fields| - 1];
      if last in init then init else init + [last]
  }

  predicate SpecOk(spec: IndexSpec, fields: nat) {
    && 1 <= |spec.sortedFields| <= 4
    && 1 <= |spec.recordFields| <= 8
    && 1 <= spec.keyColumns <= |spec.recordFields|
    && (forall f | f in spec.sortedFields :: f < fields)
    && (forall f | f in spec.recordFields :: f in spec.sortedFields)
    && FirstOccurrences(spec.recordFields) == spec.sortedFields
  }

  datatype Codec = Codec(fields: seq<nat>, minimum: Words, shifts: seq<nat>, masks: seq<nat>, bits: nat)

  /** Bits the fields from position `n` on take together. */
  ghost function Suffix(widths: seq<nat>, n: nat): nat
    requires n <= |widths|
    decreases |widths| - n
  {
    if n == |widths| then 0 else widths[n] + Suffix(widths, n + 1)
  }

  /** The codec lays these widths out from the top bit down. */
  ghost predicate Lays(codec: Codec, widths: seq<nat>) {
    && |widths| == |codec.fields| == |codec.shifts| == |codec.masks|
    && (forall i | 0 <= i < |codec.fields| :: codec.fields[i] < 4 && widths[i] <= 64)
    && (forall i, j | 0 <= i < j < |codec.fields| :: codec.fields[i] != codec.fields[j])
    && codec.bits == Suffix(widths, 0)
    && (forall i | 0 <= i < |widths| :: codec.shifts[i] == if widths[i] == 0 then 0 else Suffix(widths, i + 1))
    && forall i | 0 <= i < |widths| :: codec.masks[i] == Pow2(widths[i]) - 1
  }

  /** The tuple lies in the ranges the codec was made for. */
  ghost predicate InRange(codec: Codec, widths: seq<nat>, tuple: Tuple)
    requires Lays(codec, widths)
  {
    forall i | 0 <= i < |widths| ::
      var f := codec.fields[i]; 0 <= Sortable(tuple[f]) - codec.minimum[f] < Pow2(widths[i])
  }

  ghost function Sum(widths: seq<nat>): nat {
    if widths == [] then 0 else Sum(widths[..|widths| - 1]) + widths[|widths| - 1]
  }

  lemma {:induction false} SumIsSuffix(widths: seq<nat>, n: nat)
    requires n <= |widths|
    ensures Sum(widths[..n]) + Suffix(widths, n) == Suffix(widths, 0)
  {
    if n > 0 {
      SumIsSuffix(widths, n - 1);
      assert widths[..n][..n - 1] == widths[..n - 1];
    }
  }

  /** The width of each sorted field. */
  method Widths(spool: IntegerSpool, fields: seq<nat>) returns (widths: seq<nat>, bits: nat)
    requires spool.Valid() && forall f | f in fields :: f < spool.fields
    ensures |widths| == |fields| && bits == Suffix(widths, 0)
    ensures forall i | 0 <= i < |fields| :: WidthOf(spool.rows, spool.minimum, spool.maximum, fields[i], widths[i])
  {
    hide Bounds, WidthOf, BitLength;
    widths, bits := [], 0;
    for position := 0 to |fields|
      invariant |widths| == position && bits == Sum(widths)
      invariant forall i | 0 <= i < position :: WidthOf(spool.rows, spool.minimum, spool.maximum, fields[i], widths[i])
    {
      var field := fields[position];
      assert field in fields;
      assert Bounds(spool.rows, field, spool.minimum[field], spool.maximum[field]);
      var range: nat := if |spool.rows| == 0 then 0 else SpoolRange(spool.rows, field, spool.minimum[field],
                                                                    spool.maximum[field]);
      WidthIs(spool.rows, spool.minimum, spool.maximum, field, range);
      var width := BitLength(range);
      assert (widths + [width])[..position] == widths;
      widths := widths + [width];
      bits := bits + width;
    }
    assert widths[..|widths|] == widths;
    SumIsSuffix(widths, |widths|);
  }

  lemma NoPower2()
    ensures Pow2(0) == 1
  {
  }

  lemma NoSuffix(widths: seq<nat>)
    ensures Suffix(widths, |widths|) == 0
  {
  }

  lemma NextSuffix(widths: seq<nat>, n: nat)
    requires n < |widths|
    ensures Suffix(widths, n) == widths[n] + Suffix(widths, n + 1)
  {
  }

  /** Where each field goes: from the top bit down. */
  method Layout(widths: seq<nat>, bits: nat) returns (shifts: seq<nat>, masks: seq<nat>)
    requires bits == Suffix(widths, 0)
    ensures |shifts| == |masks| == |widths|
    ensures forall i | 0 <= i < |widths| :: shifts[i] == if widths[i] == 0 then 0 else Suffix(widths, i + 1)
    ensures forall i | 0 <= i < |widths| :: masks[i] == Pow2(widths[i]) - 1
  {
    hide Pow2, Suffix;
    NoPower2();
    NoSuffix(widths);
    shifts, masks := [], [];
    var remaining := bits;
    for position := 0 to |widths|
      invariant |shifts| == |masks| == position && remaining == Suffix(widths, position)
      invariant forall i | 0 <= i < position :: shifts[i] == if widths[i] == 0 then 0 else Suffix(widths, i + 1)
      invariant forall i | 0 <= i < position :: masks[i] == Pow2(widths[i]) - 1
    {
      var width := widths[position];
      NextSuffix(widths, position);
      remaining := remaining - width;
      shifts := shifts + [if width == 0 then 0 else remaining];
      masks := masks + [if width == 0 then 0 else Pow2(width) - 1];
    }
  }

  method NewCodec(spool: IntegerSpool, spec: IndexSpec) returns (r: Result<Codec>, ghost widths: seq<nat>)
    requires spool.Valid()
    ensures r.Ok? <==> SpecOk(spec, spool.fields)
    ensures r.Ok? ==>
              && Lays(r.value, widths) && r.value.fields == spec.sortedFields && r.value.minimum == spool.minimum
              && forall i | 0 <= i < |spool.rows| :: InRange(r.value, widths, spool.rows[i])
  {
    hide Bounds, BitLength, Pow2;
    widths := [];
    if !SpecOk(spec, spool.fields) {
      return Err("invalid integer index field specification"), widths;
    }
    var fields := spec.sortedFields;
    var sizes, bits := Widths(spool, fields);
    var shifts, masks := Layout(sizes, bits);
    widths := sizes;
    var codec := Codec(fields, spool.minimum, shifts, masks, bits);
    forall i | 0 <= i < |fields| ensures fields[i] < spool.fields {
      assert fields[i] in fields;
    }
    return Ok(codec), widths;
  }

  function SpoolRange(rows: seq<Tuple>, field: nat, low: u64, high: u64): nat
    requires rows != [] && field < 4 && Bounds(rows, field, low, high)
  {
    high - low
  }

  /** Every row's value fits the width, and the width is at most a word. */
  ghost predicate WidthOf(rows: seq<Tuple>, minimum: Words, maximum: Words, field: nat, width: nat) {
    && field < 4 && width <= 64
    && forall i | 0 <= i < |rows| :: 0 <= Sortable(rows[i][field]) - minimum[field] < Pow2(width)
  }

  lemma WidthIs(rows: seq<Tuple>, minimum: Words, maximum: Words, field: nat, range: nat)
    requires field < 4 && Bounds(rows, field, minimum[field], maximum[field])
    requires range == if rows == [] then 0 else maximum[field] - minimum[field]
    ensures WidthOf(rows, minimum, maximum, field, BitLength(range))
  {
    BitLengthIsExact(range);
    assert Pow2(64) == U64 by {
      Pow2Bytes(8);
      assert Pow256(8) == U64;
    }
    BitLengthBound(range, 64);
  }

  // ---------------------------------------------------------------- packing

  /** The key types: 64, 96 or 128 bits, or one word per field. */
  datatype Kind = Word64 | Word96 | Word128 | Wide

  function KindFor(bits: nat): Kind {
    if bits <= 64 then Word64 else if bits <= 96 then Word96 else if bits <= 128 then Word128 else Wide
  }

  /** Bits of the integer the fields are packed into; 96-bit keys are packed as 128-bit integers. */
  function PackWidth(bits: nat): nat {
    if bits <= 64 then 64 else 128
  }

  predicate Usable(codec: Codec) {
    && |codec.fields| == |codec.shifts| == |codec.masks| <= 4
    && forall i | 0 <= i < |codec.fields| :: codec.fields[i] < 4
  }

  predicate AtLeastMinimum(codec: Codec, tuple: Tuple)
    requires Usable(codec)
  {
    forall i | 0 <= i < |codec.fields| :: Sortable(tuple[codec.fields[i]]) >= codec.minimum[codec.fields[i]]
  }

  function Delta(codec: Codec, tuple: Tuple, i: nat): nat
    requires Usable(codec) && AtLeastMinimum(codec, tuple) && i < |codec.fields|
  {
    Sortable(tuple[codec.fields[i]]) - codec.minimum[codec.fields[i]]
  }

  /** The first `n` fields, each shifted to its place. */
  function PackUpTo(codec: Codec, tuple: Tuple, n: nat): nat
    requires Usable(codec) && AtLeastMinimum(codec, tuple) && n <= |codec.fields|
  {
    if n == 0 then 0
    else Or(PackUpTo(codec, tuple, n - 1), Delta(codec, tuple,
                                                 n - 1) * Pow2(codec.shifts[n - 1]) % Pow2(PackWidth(codec.bits)))
  }

  function UnpackField(codec: Codec, key: nat, i: nat): i64
    requires Usable(codec) && i < |codec.fields|
  {
    Restored((And(key / Pow2(codec.shifts[i]) % U64, codec.masks[i]) + codec.minimum[codec.fields[i]]) % U64)
  }

  function UnpackUpTo(codec: Codec, key: nat, n: nat): Tuple
    requires Usable(codec) && n <= |codec.fields|
  {
    if n == 0 then [0, 0, 0, 0] else UnpackUpTo(codec, key, n - 1)[codec.fields[n - 1] := UnpackField(codec, key,
        n - 1)]
  }

  function WideWords(codec: Codec, tuple: Tuple): seq<u64>
    requires Usable(codec)
  {
    seq(4, i requires 0 <= i < 4 => WideWord(codec, tuple, i))
  }

  function WideWord(codec: Codec, tuple: Tuple, i: nat): u64
    requires Usable(codec)
  {
    if i < |codec.fields| then Sortable(tuple[codec.fields[i]]) else 0
  }

  /** Word `i` of a wide key. */
  function WordAt(key: nat, i: nat): u64
    requires i < 4
  {
    High(key, 8 * (3 - i)) % U64
  }

  function UnpackWide(codec: Codec, key: nat, n: nat): Tuple
    requires Usable(codec) && n <= |codec.fields|
  {
    if n == 0 then [0, 0, 0, 0] else UnpackWide(codec, key, n - 1)[codec.fields[n - 1] := Restored(WordAt(key, n - 1))]
  }

  function Pack(codec: Codec, tuple: Tuple): nat
    requires Usable(codec) && AtLeastMinimum(codec, tuple)
  {
    if KindFor(codec.bits).Wide? then Value(WideWords(codec, tuple), 8) else PackUpTo(codec, tuple, |codec.fields|)
  }

  function Unpack(codec: Codec, key: nat): Tuple
    requires Usable(codec)
  {
    if KindFor(codec.bits).Wide? then UnpackWide(codec, key, |codec.fields|) else UnpackUpTo(codec, key, |codec.fields|)
  }

  function Passes(codec: Codec): nat {
    if KindFor(codec.bits).Wide? then 32 else (codec.bits + 7) / 8
  }

  // ---------------------------------------------------------------- what a packed key is

  /** The fields as digits of a mixed-radix number. */
  ghost function Horner(deltas: seq<nat>, widths: seq<nat>): nat
    requires |deltas| == |widths|
  {
    if deltas == [] then 0
    else Horner(deltas[..|deltas| - 1], widths[..|widths| - 1]) * Pow2(widths[|widths| - 1]) + deltas[|deltas| - 1]
  }

  ghost predicate DigitsFit(deltas: seq<nat>, widths: seq<nat>) {
    |deltas| == |widths| && forall i | 0 <= i < |deltas| :: deltas[i] < Pow2(widths[i])
  }

  ghost function Deltas(codec: Codec, tuple: Tuple): seq<nat>
    requires Usable(codec) && AtLeastMinimum(codec, tuple)
  {
    seq(|codec.fields|, i requires 0 <= i < |codec.fields| => Delta(codec, tuple, i))
  }

  lemma InRangeIs(codec: Codec, widths: seq<nat>, tuple: Tuple)
    requires Lays(codec, widths) && |widths| <= 4 && InRange(codec, widths, tuple)
    ensures Usable(codec) && AtLeastMinimum(codec, tuple) && DigitsFit(Deltas(codec, tuple), widths)
  {
  }

  lemma {:induction false} SuffixShrinks(widths: seq<nat>, n: nat)
    requires n <= |widths|
    ensures Suffix(widths, n) <= Suffix(widths, 0)
  {
    if n > 0 {
      SuffixShrinks(widths, n - 1);
    }
  }

  /** One field: with no bits it adds nothing, otherwise its bits go below those already there. */
  lemma OrField(h: nat, delta: nat, width: nat, rest: nat, total: nat)
    requires delta < Pow2(width) && width + rest <= total
    ensures var shift := if width == 0 then 0 else rest;
            Or(h * Pow2(width + rest), delta * Pow2(shift) % Pow2(total)) == (h * Pow2(width) + delta) * Pow2(rest)
  {
    hide Or;
    Pow2Sum(width, rest);
    if width == 0 {
      assert delta == 0;
      assert Pow2(0) == 1;
      OrZero(h * Pow2(rest));
      assert 0 % Pow2(total) == 0;
    } else {
      hide Pow2;
      var p, q := Pow2(width), Pow2(rest);
      Shifted(h, delta, p, q);
      Pow2Grows(width + rest, total);
      SmallMod(delta * q, Pow2(total));
      OrDisjoint(h, width + rest, delta * q);
    }
  }

  lemma Shifted(h: nat, delta: nat, p: nat, q: nat)
    requires delta < p
    ensures delta * q < p * q || q == 0
    ensures h * (p * q) + delta * q == (h * p + delta) * q
  {
    assert h * (p * q) == (h * p) * q;
    assert (h * p + delta) * q == (h * p) * q + delta * q;
    assert (delta + 1) * q <= p * q;
  }

  lemma SmallMod(n: nat, m: nat)
    requires n < m
    ensures n % m == n
  {
  }

  /** Shifting every field into place is evaluating the mixed-radix number. */
  lemma {:induction false} PackedIs(codec: Codec, widths: seq<nat>, tuple: Tuple, n: nat)
    requires Lays(codec, widths) && |widths| <= 4 && InRange(codec, widths, tuple)
             && codec.bits <= PackWidth(codec.bits)
    requires Usable(codec) && AtLeastMinimum(codec, tuple) && n <= |widths|
    ensures PackUpTo(codec, tuple, n) == Horner(Deltas(codec, tuple)[..n], widths[..n]) * Pow2(Suffix(widths, n))
  {
    hide Or, Pow2, Sortable;
    InRangeIs(codec, widths, tuple);
    if n > 0 {
      PackedIs(codec, widths, tuple, n - 1);
      var deltas := Deltas(codec, tuple);
      var h := Horner(deltas[..n - 1], widths[..n - 1]);
      assert deltas[..n][..n - 1] == deltas[..n - 1] && widths[..n][..n - 1] == widths[..n - 1];
      SuffixShrinks(widths, n - 1);
      OrField(h, deltas[n - 1], widths[n - 1], Suffix(widths, n), PackWidth(codec.bits));
    }
  }

  lemma {:induction false} HornerFits(deltas: seq<nat>, widths: seq<nat>)
    requires DigitsFit(deltas, widths)
    ensures Horner(deltas, widths) < Pow2(Suffix(widths, 0))
    decreases |deltas|
  {
    hide Pow2;
    if deltas != [] {
      var k := |deltas| - 1;
      HornerFits(deltas[..k], widths[..k]);
      SuffixSnoc(widths);
      Pow2Sum(Suffix(widths[..k], 0), widths[k]);
      FitsBelow(Horner(deltas[..k], widths[..k]), Pow2(Suffix(widths[..k], 0)), deltas[k], Pow2(widths[k]));
    }
  }

  lemma FitsBelow(h: nat, p: nat, d: nat, q: nat)
    requires h < p && d < q
    ensures h * q + d < p * q
  {
    assert (h + 1) * q <= p * q;
    assert (h + 1) * q == h * q + q;
  }

  lemma SuffixSnoc(widths: seq<nat>)
    requires widths != []
    ensures Suffix(widths, 0) == Suffix(widths[..|widths| - 1], 0) + widths[|widths| - 1]
  {
    var k := |widths| - 1;
    SumIsSuffix(widths, |widths|);
    SumIsSuffix(widths[..k], k);
    assert widths[..|widths|] == widths && widths[..k][..k] == widths[..k];
  }

  /** Dropping the fields behind position `i` leaves the number of the fields before. */
  lemma {:induction false} HornerPrefix(deltas: seq<nat>, widths: seq<nat>, i: nat)
    requires DigitsFit(deltas, widths) && i <= |widths|
    ensures Horner(deltas, widths) / Pow2(Suffix(widths, i)) == Horner(deltas[..i], widths[..i])
    decreases |deltas| - i
  {
    hide Pow2;
    if i == |widths| {
      assert deltas[..i] == deltas && widths[..i] == widths;
      PowZero();
    } else {
      HornerPrefix(deltas, widths, i + 1);
      var h := Horner(deltas[..i], widths[..i]);
      assert deltas[..i + 1][..i] == deltas[..i] && widths[..i + 1][..i] == widths[..i];
      Pow2Sum(Suffix(widths, i + 1), widths[i]);
      DivTwice(Horner(deltas, widths), Pow2(Suffix(widths, i + 1)), Pow2(widths[i]));
      Remainder(h * Pow2(widths[i]) + deltas[i], Pow2(widths[i]), h, deltas[i]);
    }
  }

  lemma PowZero()
    ensures Pow2(0) == 1
  {
  }

  lemma PlaceTimes(a: nat, q: nat, b: nat, p: nat)
    ensures (a * q + b) * p == a * (p * q) + b * p
  {
  }

  lemma Split(n: nat, m: nat)
    requires m >= 1
    ensures n == (n / m) * m + n % m && n % m < m
  {
  }

  lemma Positive(p: nat, q: nat)
    requires p >= 1 && q >= 1
    ensures p * q >= 1
  {
  }

  lemma DivTwice(n: nat, p: nat, q: nat)
    requires p >= 1 && q >= 1
    ensures p * q >= 1 && n / (p * q) == n / p / q
  {
    Positive(p, q);
    var m, a, r := p * q, n / p, n % p;
    var b, t := a / q, a % q;
    Split(n, p);
    Split(a, q);
    PlaceTimes(b, q, t, p);
    FitsBelow(t, q, r, p);
    Swap(p, q);
    Remainder(n, m, b, t * p + r);
  }

  lemma Swap(p: nat, q: nat)
    ensures p * q == q * p
  {
  }

  // ---------------------------------------------------------------- round trip

  /** The tuple with the fields that are not sorted set to zero. */
  function Projected(fields: seq<nat>, tuple: Tuple): Tuple {
    [if 0 in fields then tuple[0] else 0, if 1 in fields then tuple[1] else 0,
     if 2 in fields then tuple[2] else 0, if 3 in fields then tuple[3] else 0]
  }

  /** Shifting and masking takes one field's bits out again. */
  lemma FieldBits(deltas: seq<nat>, widths: seq<nat>, i: nat)
    requires DigitsFit(deltas, widths) && i < |widths| && widths[i] <= 64
    ensures var shift := if widths[i] == 0 then 0 else Suffix(widths, i + 1);
            And(Horner(deltas, widths) / Pow2(shift) % U64, Pow2(widths[i]) - 1) == deltas[i]
  {
    hide Pow2, And, Horner, Suffix;
    var shift := if widths[i] == 0 then 0 else Suffix(widths, i + 1);
    AndMask(Horner(deltas, widths) / Pow2(shift) % U64, widths[i]);
    if widths[i] == 0 {
      NoBits(Horner(deltas, widths) / Pow2(shift) % U64);
    } else {
      HornerPrefix(deltas, widths, i + 1);
      LastField(deltas, widths, i);
    }
  }

  lemma PackedIsHorner(codec: Codec, widths: seq<nat>, tuple: Tuple)
    requires Lays(codec, widths) && |widths| <= 4 && InRange(codec, widths, tuple)
             && codec.bits <= PackWidth(codec.bits)
    requires Usable(codec) && AtLeastMinimum(codec, tuple)
    ensures DigitsFit(Deltas(codec, tuple), widths) && PackUpTo(codec, tuple, |widths|)
            == Horner(Deltas(codec, tuple), widths)
  {
    hide PackUpTo, Horner, Pow2, Suffix;
    InRangeIs(codec, widths, tuple);
    PackedIs(codec, widths, tuple, |widths|);
    var deltas := Deltas(codec, tuple);
    assert deltas[..|widths|] == deltas && widths[..|widths|] == widths;
    WholeSuffix(widths);
  }

  lemma FieldRoundTrip(codec: Codec, widths: seq<nat>, tuple: Tuple, i: nat)
    requires Lays(codec, widths) && |widths| <= 4 && InRange(codec, widths, tuple)
             && codec.bits <= PackWidth(codec.bits)
    requires Usable(codec) && AtLeastMinimum(codec, tuple) && i < |widths|
    ensures UnpackField(codec, PackUpTo(codec, tuple, |widths|), i) == tuple[codec.fields[i]]
  {
    hide Pow2, Sortable, Restored, PackUpTo, And, Horner, Suffix, InRange, Or, DigitsFit;
    PackedIsHorner(codec, widths, tuple);
    FieldBits(Deltas(codec, tuple), widths, i);
    SortableIs(tuple[codec.fields[i]]);
  }

  lemma WholeSuffix(widths: seq<nat>)
    ensures Pow2(Suffix(widths, |widths|)) == 1
  {
  }

  lemma NoBits(n: nat)
    ensures n % Pow2(0) == 0 && Pow2(0) == 1
  {
  }

  lemma LastField(deltas: seq<nat>, widths: seq<nat>, i: nat)
    requires DigitsFit(deltas, widths) && i < |widths| && widths[i] <= 64
    ensures Horner(deltas[..i + 1], widths[..i + 1]) % U64 % Pow2(widths[i]) == deltas[i]
  {
    hide Pow2;
    var h := Horner(deltas[..i], widths[..i]);
    assert deltas[..i + 1][..i] == deltas[..i] && widths[..i + 1][..i] == widths[..i];
    var n := Horner(deltas[..i + 1], widths[..i + 1]);
    Remainder(n, Pow2(widths[i]), h, deltas[i]);
    Pow2Sum(widths[i], 64 - widths[i]);
    SixtyFour();
    ModMod(n, Pow2(widths[i]), Pow2(64 - widths[i]));
  }

  lemma SixtyFour()
    ensures Pow2(64) == U64
  {
    Pow2Bytes(8);
    assert Pow256(8) == U64;
  }

  lemma ModMod(n: nat, p: nat, q: nat)
    requires p >= 1 && q >= 1
    ensures p * q >= 1 && n % (p * q) % p == n % p
  {
    Positive(p, q);
    var m := p * q;
    var a, r := n / m, n % m;
    var b, t := r / p, r % p;
    Split(n, m);
    Split(r, p);
    PlaceTimes(a, q, b, p);
    Remainder(n, p, a * q + b, t);
  }

  lemma {:induction false} TupleRoundTrip(codec: Codec, widths: seq<nat>, tuple: Tuple, n: nat)
    requires Lays(codec, widths) && |widths| <= 4 && InRange(codec, widths, tuple)
             && codec.bits <= PackWidth(codec.bits)
    requires Usable(codec) && AtLeastMinimum(codec, tuple) && n <= |widths|
    ensures UnpackUpTo(codec, PackUpTo(codec, tuple, |widths|), n) == Projected(codec.fields[..n], tuple)
  {
    hide PackUpTo, UnpackField, Pow2, Sortable, Suffix;
    if n > 0 {
      TupleRoundTrip(codec, widths, tuple, n - 1);
      FieldRoundTrip(codec, widths, tuple, n - 1);
      ProjectedNext(codec.fields, tuple, n - 1);
    }
  }

  lemma ProjectedNext(fields: seq<nat>, tuple: Tuple, n: nat)
    requires n < |fields| && fields[n] < 4
    ensures Projected(fields[..n + 1], tuple) == Projected(fields[..n], tuple)[fields[n] := tuple[fields[n]]]
  {
    assert fields[..n + 1] == fields[..n] + [fields[n]];
  }

  // ---------------------------------------------------------------- wide keys

  /** A word of a number made of words. */
  lemma {:induction false} WordOf(words: seq<nat>, m: nat, i: nat)
    requires WordsFit(words, m) && i < |words|
    ensures High(Value(words, m), m * (|words| - 1 - i)) % Pow256(m) == words[i]
    decreases |words|
  {
    hide High, Value, Pow256;
    var k := |words| - 1;
    LastWord(words, m);
    if i < k {
      WordOf(words[..k], m, i);
      WordBefore(words, m, k - 1 - i);
    } else {
      TimesZero(m, k - i);
    }
  }

  lemma WordBefore(words: seq<nat>, m: nat, n: nat)
    requires WordsFit(words, m) && words != []
    ensures High(Value(words, m), m * (n + 1)) == High(Value(words[..|words| - 1], m), m * n)
  {
    hide High, Value, Pow256, WordsFit;
    LastWord(words, m);
    var p := m * n;
    HighBeyond(Value(words, m), m, p);
    OneMore(m, n);
  }

  lemma NoPower(a: nat)
    ensures a * Pow256(0) == a
  {
  }

  lemma TimesZero(m: nat, n: int)
    requires n == 0
    ensures m * n == 0
  {
  }

  lemma OneMore(m: nat, n: nat)
    ensures m * (n + 1) == m + m * n
  {
  }

  lemma LastWord(words: seq<nat>, m: nat)
    requires WordsFit(words, m) && words != []
    ensures High(Value(words, m), 0) % Pow256(m) == words[|words| - 1]
    ensures High(Value(words, m), m) == Value(words[..|words| - 1], m)
  {
    hide Pow256;
    var k := |words| - 1;
    var a := Value(words[..k], m);
    assert High(Value(words, m), 0) == Value(words, m) == a * Pow256(m) + words[k];
    hide Value, High;
    Remainder(a * Pow256(m) + words[k], Pow256(m), a, words[k]);
    HighOfWords(a, words[k], m, m);
    HighOfNarrow(words[k], m);
    NoPower(a);
  }

  lemma WideFits(codec: Codec, tuple: Tuple)
    requires Usable(codec)
    ensures WordsFit(WideWords(codec, tuple), 8) && Pow256(8) == U64
  {
    assert Pow256(8) == U64;
  }

  lemma {:induction false} WideRoundTrip(codec: Codec, tuple: Tuple, n: nat)
    requires Usable(codec) && n <= |codec.fields|
    ensures UnpackWide(codec, Value(WideWords(codec, tuple), 8), n) == Projected(codec.fields[..n], tuple)
  {
    hide Sortable, Restored, Value, High;
    if n > 0 {
      var words := WideWords(codec, tuple);
      WideRoundTrip(codec, tuple, n - 1);
      WideFits(codec, tuple);
      WordOf(words, 8, n - 1);
      assert words[n - 1] == Sortable(tuple[codec.fields[n - 1]]);
      SortableIs(tuple[codec.fields[n - 1]]);
      ProjectedNext(codec.fields, tuple, n - 1);
    }
  }

  /** Unpacking a packed tuple gives its sorted fields back, whatever the key type. */
  lemma PackRoundTrip(codec: Codec, widths: seq<nat>, tuple: Tuple)
    requires Lays(codec, widths) && |widths| <= 4 && InRange(codec, widths, tuple)
    ensures Usable(codec) && AtLeastMinimum(codec, tuple)
    ensures Unpack(codec, Pack(codec, tuple)) == Projected(codec.fields, tuple)
  {
    InRangeIs(codec, widths, tuple);
    assert codec.fields[..|widths|] == codec.fields;
    if KindFor(codec.bits).Wide? {
      WideRoundTrip(codec, tuple, |widths|);
    } else {
      TupleRoundTrip(codec, widths, tuple, |widths|);
    }
  }

  // ---------------------------------------------------------------- order

  function FieldsOf(fields: seq<nat>, tuple: Tuple): (values: seq<int>)
    requires forall i | 0 <= i < |fields| :: fields[i] < 4
    ensures |values| == |fields|
  {
    seq(|fields|, i requires 0 <= i < |fields| => tuple[fields[i]])
  }

  /** Lexicographic order of the sorted fields, as signed integers. */
  ghost predicate Before(a: seq<int>, b: seq<int>)
    requires |a| == |b|
  {
    exists i :: 0 <= i < |a| && a[i] < b[i] && a[..i] == b[..i]
  }

  /** Two lists of numbers with the same order at every position. */
  ghost predicate SameOrder(a: seq<int>, b: seq<int>, x: seq<nat>, y: seq<nat>) {
    && |a| == |b| == |x| == |y|
    && forall i | 0 <= i < |a| :: (a[i] < b[i] <==> x[i] < y[i]) && (a[i] == b[i] <==> x[i] == y[i])
  }

  lemma {:induction false} BeforeIsWordsLess(a: seq<int>, b: seq<int>, x: seq<nat>, y: seq<nat>)
    requires SameOrder(a, b, x, y)
    ensures Before(a, b) <==> WordsLess(x, y)
    ensures a == b <==> x == y
    decreases |a|
  {
    if a != [] {
      var k := |a| - 1;
      BeforeIsWordsLess(a[..k], b[..k], x[..k], y[..k]);
      SnocEqual(a, b);
      SnocEqual(x, y);
      BeforeSnoc(a, b);
    }
  }

  lemma SnocEqual<T>(a: seq<T>, b: seq<T>)
    requires |a| == |b| > 0
    ensures a == b <==> a[..|a| - 1] == b[..|a| - 1] && a[|a| - 1] == b[|a| - 1]
  {
    assert a == a[..|a| - 1] + [a[|a| - 1]] && b == b[..|a| - 1] + [b[|a| - 1]];
  }

  lemma BeforeSnoc(a: seq<int>, b: seq<int>)
    requires |a| == |b| > 0
    ensures var k := |a| - 1; Before(a, b) <==> Before(a[..k], b[..k]) || (a[..k] == b[..k] && a[k] < b[k])
  {
    var k := |a| - 1;
    if i :| 0 <= i < |a| && a[i] < b[i] && a[..i] == b[..i] {
      if i < k {
        assert a[..k][i] < b[..k][i] && a[..k][..i] == a[..i] && b[..k][..i] == b[..i];
      }
    }
    if Before(a[..k], b[..k]) {
      var i :| 0 <= i < k && a[..k][i] < b[..k][i] && a[..k][..i] == b[..k][..i];
      assert a[..k][..i] == a[..i] && b[..k][..i] == b[..i];
    }
  }

  lemma {:induction false} HornerOrder(d: seq<nat>, e: seq<nat>, widths: seq<nat>)
    requires DigitsFit(d, widths) && DigitsFit(e, widths)
    ensures WordsLess(d, e) <==> Horner(d, widths) < Horner(e, widths)
    ensures d == e <==> Horner(d, widths) == Horner(e, widths)
    decreases |d|
  {
    hide Pow2;
    if d != [] {
      var k := |d| - 1;
      HornerOrder(d[..k], e[..k], widths[..k]);
      CompareParts(Horner(d[..k], widths[..k]), d[k], Horner(e[..k], widths[..k]), e[k], Pow2(widths[k]));
      SnocEqual(d, e);
    }
  }

  lemma DeltasOrder(codec: Codec, t: Tuple, u: Tuple)
    requires Usable(codec) && AtLeastMinimum(codec, t) && AtLeastMinimum(codec, u)
    ensures SameOrder(FieldsOf(codec.fields, t), FieldsOf(codec.fields, u), Deltas(codec, t), Deltas(codec, u))
  {
    hide Sortable;
    var d, e := Deltas(codec, t), Deltas(codec, u);
    forall i | 0 <= i < |codec.fields|
      ensures (d[i] as int) - (e[i] as int) == (t[codec.fields[i]] as int) - (u[codec.fields[i]] as int) {
      SortableIs(t[codec.fields[i]]);
      SortableIs(u[codec.fields[i]]);
    }
  }

  lemma PackedOrder(codec: Codec, widths: seq<nat>, t: Tuple, u: Tuple)
    requires Lays(codec, widths) && |widths| <= 4 && InRange(codec, widths, t) && InRange(codec, widths, u)
    requires Usable(codec) && AtLeastMinimum(codec, t) && AtLeastMinimum(codec, u)
             && codec.bits <= PackWidth(codec.bits)
    ensures var x, y := PackUpTo(codec, t, |widths|), PackUpTo(codec, u, |widths|);
            && (x < y <==> Before(FieldsOf(codec.fields, t), FieldsOf(codec.fields, u)))
            && (x == y <==> FieldsOf(codec.fields, t) == FieldsOf(codec.fields, u))
  {
    hide Horner, PackUpTo, Before, Pow2, WordsLess, Suffix, DigitsFit, InRange, Deltas, FieldsOf, SameOrder;
    PackedIsHorner(codec, widths, t);
    PackedIsHorner(codec, widths, u);
    HornerOrder(Deltas(codec, t), Deltas(codec, u), widths);
    DeltasOrder(codec, t, u);
    BeforeIsWordsLess(FieldsOf(codec.fields, t), FieldsOf(codec.fields, u), Deltas(codec, t), Deltas(codec, u));
  }

  lemma WideOrder(codec: Codec, t: Tuple, u: Tuple)
    requires Usable(codec)
    ensures var x, y := Value(WideWords(codec, t), 8), Value(WideWords(codec, u), 8);
            && (x < y <==> Before(FieldsOf(codec.fields, t), FieldsOf(codec.fields, u)))
            && (x == y <==> FieldsOf(codec.fields, t) == FieldsOf(codec.fields, u))
  {
    hide Value, WordsLess, Before;
    var x, y := WideWords(codec, t), WideWords(codec, u);
    WideFits(codec, t);
    WideFits(codec, u);
    WordOrder(x, y, 8);
    var a, b := FieldsOf(codec.fields, t), FieldsOf(codec.fields, u);
    var n := |codec.fields|;
    var zeros := seq(4 - n, _ => 0);
    forall i | 0 <= i < n
      ensures (x[i] as int) - (y[i] as int) == (t[codec.fields[i]] as int) - (u[codec.fields[i]] as int) {
      SortableIs(t[codec.fields[i]]);
      SortableIs(u[codec.fields[i]]);
    }
    BeforeIsWordsLess(a + zeros, b + zeros, x, y);
    BeforePadded(a, b, zeros);
  }

  lemma BeforePadded(a: seq<int>, b: seq<int>, zeros: seq<int>)
    requires |a| == |b|
    ensures Before(a + zeros, b + zeros) <==> Before(a, b)
    ensures a + zeros == b + zeros <==> a == b
  {
    if Before(a, b) {
      var i :| 0 <= i < |a| && a[i] < b[i] && a[..i] == b[..i];
      assert (a + zeros)[i] < (b + zeros)[i] && (a + zeros)[..i] == a[..i] && (b + zeros)[..i] == b[..i];
    }
    if Before(a + zeros, b + zeros) {
      var i :| 0 <= i < |a + zeros| && (a + zeros)[i] < (b + zeros)[i] && (a + zeros)[..i] == (b + zeros)[..i];
      assert (a + zeros)[..i] == a[..i] && (b + zeros)[..i] == b[..i];
    }
    assert (a + zeros)[..|a|] == a && (b + zeros)[..|a|] == b;
  }

  /** Keys compare as their tuples do, whatever the key type. */
  lemma PackKeepsOrder(codec: Codec, widths: seq<nat>, t: Tuple, u: Tuple)
    requires Lays(codec, widths) && |widths| <= 4 && InRange(codec, widths, t) && InRange(codec, widths, u)
    ensures Usable(codec) && AtLeastMinimum(codec, t) && AtLeastMinimum(codec, u)
    ensures Pack(codec, t) < Pack(codec, u) <==> Before(FieldsOf(codec.fields, t), FieldsOf(codec.fields, u))
    ensures Pack(codec, t) == Pack(codec, u) <==> FieldsOf(codec.fields, t) == FieldsOf(codec.fields, u)
  {
    InRangeIs(codec, widths, t);
    InRangeIs(codec, widths, u);
    if KindFor(codec.bits).Wide? {
      WideOrder(codec, t, u);
    } else {
      PackedOrder(codec, widths, t, u);
    }
  }

  /** A key has no more bytes than the radix sort has passes. */
  lemma PackIsNarrow(codec: Codec, widths: seq<nat>, tuple: Tuple)
    requires Lays(codec, widths) && |widths| <= 4 && InRange(codec, widths, tuple)
    ensures Usable(codec) && AtLeastMinimum(codec, tuple) && Pack(codec, tuple) < Pow256(Passes(codec))
    ensures !KindFor(codec.bits).Wide? ==> Pack(codec, tuple) < Pow2(codec.bits)
  {
    hide Pow2, Pow256, PackUpTo, Value, Horner;
    InRangeIs(codec, widths, tuple);
    if KindFor(codec.bits).Wide? {
      WideFits(codec, tuple);
      ValueFits(WideWords(codec, tuple), 8);
    } else {
      var deltas := Deltas(codec, tuple);
      PackedIs(codec, widths, tuple, |widths|);
      assert deltas[..|widths|] == deltas && widths[..|widths|] == widths;
      WholeSuffix(widths);
      HornerFits(deltas, widths);
      Pow2Grows(codec.bits, 8 * Passes(codec));
      Pow2Bytes(Passes(codec));
    }
  }

  lemma {:induction false} ValueFits(words: seq<nat>, m: nat)
    requires WordsFit(words, m)
    ensures Value(words, m) < Pow256(m * |words|)
    decreases |words|
  {
    if words != [] {
      var k := |words| - 1;
      ValueFits(words[..k], m);
      Pow256Sum(m * k, m);
      assert m * |words| == m * k + m;
      FitsBelow(Value(words[..k], m), Pow256(m * k), words[k], Pow256(m));
    }
  }

  // ---------------------------------------------------------------- keys of several words

  /** The three 32-bit words of a 96-bit key. */
  function Words96(key: nat): seq<nat> {
    [High(key, 8) % U32, High(key, 4) % U32, key % U32]
  }

  /** The digit taken from an array of words, most significant word first, `m` bytes each. */
  function WordDigit(words: seq<nat>, m: nat, pass: nat): nat
    requires m >= 1 && pass / m < |words|
  {
    Digit(words[|words| - 1 - pass / m], pass % m)
  }

  lemma Words96Spell(key: nat)
    requires key < Pow256(12)
    ensures WordsFit(Words96(key), 4) && Value(Words96(key), 4) == key
  {
    hide High;
    SmallPowers();
    HighIsDiv(key, 4);
    HighIsDiv(key, 8);
    var words := Words96(key);
    assert key / U64 == key / U32 / U32;
    assert words[..2] == [words[0], words[1]] && words[..2][..1] == [words[0]] && words[..2][..1][..0] == [];
    hide Pow256;
    assert Value([words[0]], 4) == words[0];
    assert Value([words[0], words[1]], 4) == words[0] * U32 + words[1];
  }

  lemma SmallPowers()
    ensures Pow256(4) == U32 && Pow256(8) == U64 && Pow256(12) == U32 * U64
  {
    Pow256Sum(4, 8);
    assert Pow256(4) == U32;
    Pow256Sum(4, 4);
  }

  lemma {:induction false} HighIsDiv(key: nat, n: nat)
    ensures High(key, n) == key / Pow256(n)
  {
    if n > 0 {
      HighIsDiv(key, n - 1);
      DivTwice(key, Pow256(n - 1), 256);
      Swap(Pow256(n - 1), 256);
    }
  }

  /** 96-bit and wide keys sort as the numbers they spell: same digits, same comparison. */
  lemma WordKeysAgree(a: seq<nat>, b: seq<nat>, m: nat, pass: nat)
    requires |a| == |b| && WordsFit(a, m) && WordsFit(b, m) && m >= 1 && pass < m * |a|
    ensures pass / m < |a| && WordDigit(a, m, pass) == Digit(Value(a, m), pass)
    ensures WordsLess(a, b) <==> Value(a, m) < Value(b, m)
  {
    DigitOfWords(a, m, pass);
    WordOrder(a, b, m);
  }
}
