/** Sorting an integer index: packed keys through the external sort, and the sorted stream of records
    with its statistics (`sort_one` and `sort_keys` in `index_builder.rs`). */
module IndexSorting {
  import opened Bytes
  import opened ExternalSort
  import opened KeyCodec
  import opened RadixSorting
  import opened RecordCodec
  import opened Results
  import KeyCounts
  import Sampler

  // ---------------------------------------------------------------- multisets

  function MapAll<A, B>(s: seq<A>, f: A -> B): (r: seq<B>)
    ensures |r| == |s| && forall i | 0 <= i < |s| :: r[i] == f(s[i])
  {
    seq(|s|, i requires 0 <= i < |s| => f(s[i]))
  }

  function Without<A>(s: seq<A>, j: nat): seq<A>
    requires j < |s|
  {
    s[..j] + s[j + 1..]
  }

  lemma RemoveAt<A>(s: seq<A>, j: nat)
    requires j < |s|
    ensures multiset(s) == multiset(Without(s, j)) + multiset{s[j]}
  {
    assert s == s[..j] + [s[j]] + s[j + 1..];
  }

  lemma MapWithout<A, B>(s: seq<A>, j: nat, f: A -> B)
    requires j < |s|
    ensures MapAll(Without(s, j), f) == Without(MapAll(s, f), j)
  {
  }

  lemma CancelOne<A>(x: multiset<A>, y: multiset<A>, one: A)
    requires x + multiset{one} == y + multiset{one}
    ensures x == y
  {
    forall k ensures x[k] == y[k] {
      assert (x + multiset{one})[k] == (y + multiset{one})[k];
    }
  }

  lemma {:induction false} MapMultiset<A, B>(a: seq<A>, b: seq<A>, f: A -> B)
    requires multiset(a) == multiset(b)
    ensures multiset(MapAll(a, f)) == multiset(MapAll(b, f))
    decreases |a|
  {
    hide MapAll, Without;
    if a == [] {
      assert |b| == |multiset(b)| == 0;
      assert a == b;
    } else {
      var k := |a| - 1;
      var x := a[k];
      assert x in multiset(a);
      var j :| 0 <= j < |b| && b[j] == x;
      RemoveAt(a, k);
      RemoveAt(b, j);
      CancelOne(multiset(Without(a, k)), multiset(Without(b, j)), x);
      Shorter(a, k);
      MapMultiset(Without(a, k), Without(b, j), f);
      MapWithout(a, k, f);
      MapWithout(b, j, f);
      RemoveAt(MapAll(a, f), k);
      RemoveAt(MapAll(b, f), j);
    }
  }

  lemma Shorter<A>(s: seq<A>, j: nat)
    requires j < |s|
    ensures |Without(s, j)| == |s| - 1
  {
  }

  lemma {:induction false} TwiceAt(s: seq<nat>, k: nat) returns (i: nat, j: nat)
    requires multiset(s)[k] >= 2
    ensures i < j < |s| && s[i] == s[j] == k
    decreases |s|
  {
    var n := |s| - 1;
    assert s == s[..n] + [s[n]];
    if s[n] == k {
      assert k in multiset(s[..n]);
      i :| 0 <= i < n && s[i] == k;
      j := n;
    } else {
      i, j := TwiceAt(s[..n], k);
    }
  }

  lemma Twice(s: seq<nat>, i: nat, j: nat)
    requires i < j < |s| && s[i] == s[j]
    ensures multiset(s)[s[i]] >= 2
  {
    assert s == s[..i] + [s[i]] + s[i + 1..j] + [s[j]] + s[j + 1..];
  }

  ghost predicate NoneTwice<T>(s: seq<T>) {
    forall i, j | 0 <= i < j < |s| :: s[i] != s[j]
  }

  /** A sorted stream has equal neighbours exactly when the input has a key twice. */
  lemma NeighboursTell(keys: seq<nat>, out: seq<nat>)
    requires Sorted(out) && multiset(out) == multiset(keys)
    ensures NoneTwice(keys) <==> forall i | 0 < i < |out| :: out[i - 1] != out[i]
  {
    if !NoneTwice(keys) {
      var i, j :| 0 <= i < j < |keys| && keys[i] == keys[j];
      Twice(keys, i, j);
      var a, b := TwiceAt(out, keys[i]);
      assert out[a] <= out[a + 1] <= out[b];
      assert out[(a + 1) - 1] == out[a + 1];
    }
    if i :| 0 < i < |out| && out[i - 1] == out[i] {
      Twice(out, i - 1, i);
      var a, b := TwiceAt(keys, out[i]);
    }
  }

  // ---------------------------------------------------------------- record keys

  function RecordKey(fields: seq<nat>, tuple: Tuple): (key: seq<i64>)
    requires forall i | 0 <= i < |fields| :: fields[i] < 4
    ensures |key| == |fields|
  {
    seq(|fields|, i requires 0 <= i < |fields| => tuple[fields[i]])
  }

  /** Where a field first occurs, only earlier ones occur before. */
  lemma {:induction false} FirstPosition(fields: seq<nat>, i: nat) returns (k: nat)
    requires i < |FirstOccurrences(fields)|
    ensures k < |fields| && fields[k] == FirstOccurrences(fields)[i]
    ensures forall j | 0 <= j < k :: fields[j] in FirstOccurrences(fields)[..i]
    decreases |fields|
  {
    var n := |fields| - 1;
    var before := FirstOccurrences(fields[..n]);
    if i < |before| {
      k := FirstPosition(fields[..n], i);
      assert FirstOccurrences(fields)[..i] == before[..i];
    } else {
      k := n;
      assert FirstOccurrences(fields)[..i] == before;
      assert forall j | 0 <= j < n :: fields[..n][j] in before;
    }
  }

  lemma SpecFields(spec: IndexSpec, fields: nat)
    requires SpecOk(spec, fields) && fields <= 4
    ensures forall i | 0 <= i < |spec.sortedFields| :: spec.sortedFields[i] < 4
    ensures forall i | 0 <= i < |spec.recordFields| :: spec.recordFields[i] < 4
  {
    assert forall i | 0 <= i < |spec.sortedFields| :: spec.sortedFields[i] in spec.sortedFields;
    assert forall i | 0 <= i < |spec.recordFields| :: spec.recordFields[i] in spec.recordFields
                                                      && spec.recordFields[i] in spec.sortedFields;
  }

  /** The value of a sorted field is in the record, behind earlier fields only. */
  lemma SortedInRecord(spec: IndexSpec, fields: nat, t: Tuple, u: Tuple, i: nat) returns (k: nat)
    requires SpecOk(spec, fields) && fields <= 4 && i < |spec.sortedFields|
    requires forall i | 0 <= i < |spec.sortedFields| :: spec.sortedFields[i] < 4
    requires forall i | 0 <= i < |spec.recordFields| :: spec.recordFields[i] < 4
    ensures k < |spec.recordFields| && spec.recordFields[k] == spec.sortedFields[i]
    ensures FieldsOf(spec.sortedFields, t)[..i] == FieldsOf(spec.sortedFields, u)[..i] ==>
              RecordKey(spec.recordFields, t)[..k] == RecordKey(spec.recordFields, u)[..k]
  {
    k := FirstPosition(spec.recordFields, i);
    var x, y := FieldsOf(spec.sortedFields, t), FieldsOf(spec.sortedFields, u);
    if x[..i] == y[..i] {
      forall j | 0 <= j < k ensures t[spec.recordFields[j]] == u[spec.recordFields[j]] {
        var m :| 0 <= m < i && spec.sortedFields[..i][m] == spec.recordFields[j];
        assert x[..i][m] == y[..i][m];
      }
    }
  }

  /** Records compare as the sorted fields do, although they may repeat a field. */
  lemma RecordsKeepOrder(spec: IndexSpec, fields: nat, t: Tuple, u: Tuple)
    requires SpecOk(spec, fields) && fields <= 4
    ensures forall i | 0 <= i < |spec.sortedFields| :: spec.sortedFields[i] < 4
    ensures forall i | 0 <= i < |spec.recordFields| :: spec.recordFields[i] < 4
    ensures var a, b := RecordKey(spec.recordFields, t), RecordKey(spec.recordFields, u);
            var x, y := FieldsOf(spec.sortedFields, t), FieldsOf(spec.sortedFields, u);
            && (a == b <==> x == y)
            && (Before(x, y) ==> KeyCounts.LessUpTo(a, b, |spec.recordFields| - 1))
  {
    SpecFields(spec, fields);
    var a, b := RecordKey(spec.recordFields, t), RecordKey(spec.recordFields, u);
    var x, y := FieldsOf(spec.sortedFields, t), FieldsOf(spec.sortedFields, u);
    SameRecords(spec, fields, t, u);
    if Before(x, y) {
      hide SpecOk, RecordKey, FieldsOf, KeyCounts.LessUpTo;
      var i :| 0 <= i < |x| && x[i] < y[i] && x[..i] == y[..i];
      var k := SortedInRecord(spec, fields, t, u, i);
      FirstLess(a, b, k);
    }
  }

  lemma FirstLess(a: KeyCounts.Key, b: KeyCounts.Key, k: nat)
    requires |a| == |b| && k < |a| && a[k] < b[k] && a[..k] == b[..k]
    ensures KeyCounts.LessUpTo(a, b, |a| - 1)
  {
    assert forall j | 0 <= j < k :: a[..k][j] == b[..k][j];
  }

  lemma SameRecords(spec: IndexSpec, fields: nat, t: Tuple, u: Tuple)
    requires SpecOk(spec, fields) && fields <= 4
    requires forall i | 0 <= i < |spec.sortedFields| :: spec.sortedFields[i] < 4
    requires forall i | 0 <= i < |spec.recordFields| :: spec.recordFields[i] < 4
    ensures RecordKey(spec.recordFields, t) == RecordKey(spec.recordFields, u)
       <==> FieldsOf(spec.sortedFields, t) == FieldsOf(spec.sortedFields, u)
  {
    var a, b := RecordKey(spec.recordFields, t), RecordKey(spec.recordFields, u);
    var x, y := FieldsOf(spec.sortedFields, t), FieldsOf(spec.sortedFields, u);
    if x == y {
      forall i | 0 <= i < |a| ensures a[i] == b[i] {
        assert spec.recordFields[i] in spec.sortedFields;
        var j :| 0 <= j < |x| && spec.sortedFields[j] == spec.recordFields[i];
        assert x[j] == y[j];
      }
    }
    if a == b {
      forall i | 0 <= i < |x| ensures x[i] == y[i] {
        var k := SortedInRecord(spec, fields, t, u, i);
        assert a[k] == b[k];
      }
    }
  }

  // ---------------------------------------------------------------- the encoded stream

  /** The record whose frame starts at `offset`: a length byte, then the record. */
  function ReadFrame(stream: seq<byte>, offset: nat): Option<seq<byte>> {
    if offset >= |stream| || stream[offset] == 0 || offset + 1 + stream[offset] > |stream| then None
    else Some(stream[offset + 1..offset + 1 + stream[offset]])
  }

  function Encoded(key: seq<i64>): seq<byte>
    requires |key| <= 8
  {
    Record(Integers(key))
  }

  lemma EncodedIsSmall(key: seq<i64>)
    requires |key| <= 8
    ensures 1 <= |Encoded(key)| < 256
  {
    hide Record, Bodies;
    IntegerRecordIs(key);
    BodiesAreSmall(key);
  }

  lemma {:induction false} BodiesAreSmall(key: seq<i64>)
    requires |key| <= 8
    ensures |Bodies(Integers(key))| <= 8 * |key|
    decreases |key|
  {
    hide Bodies, PayloadOf;
    if key != [] {
      var k := |key| - 1;
      BodiesAreSmall(key[..k]);
      IntegerSnoc(key, k);
      TypeFits(key[k]);
      assert key[..k + 1] == key;
    } else {
      NoValues();
      assert Integers(key) == [];
    }
  }

  /** `read_encoded_record` from `at` to the end of the stream: the records in order, and where the reader stood in
      front of each. */
  function ReadFrames(stream: seq<byte>, at: nat): Option<(seq<seq<byte>>, seq<nat>)>
    decreases |stream| - at
  {
    if at >= |stream| then Some(([], []))
    else
      match ReadFrame(stream, at)
      case None => None
      case Some(record) =>
        match ReadFrames(stream, at + 1 + |record|)
        case None => None
        case Some(more) => Some(([record] + more.0, [at] + more.1))
  }

  ghost function EncodedAll(keys: seq<seq<i64>>): (records: seq<seq<byte>>)
    requires forall i | 0 <= i < |keys| :: |keys[i]| <= 8
    ensures |records| == |keys| && forall i | 0 <= i < |keys| :: records[i] == Encoded(keys[i])
  {
    seq(|keys|, i requires 0 <= i < |keys| => Encoded(keys[i]))
  }

  /** Read from its start to its end the stream gives the records of the keys, in order, each at its offset. */
  ghost predicate Framed(keys: seq<seq<i64>>, stream: seq<byte>, offsets: seq<nat>)
    requires forall i | 0 <= i < |keys| :: |keys[i]| <= 8
  {
    |offsets| == |keys| && ReadFrames(stream, 0) == Some((EncodedAll(keys), offsets))
  }

  lemma FrameStays(stream: seq<byte>, more: seq<byte>, offset: nat)
    requires ReadFrame(stream, offset).Some?
    ensures ReadFrame(stream + more, offset) == ReadFrame(stream, offset)
  {
    var n := stream[offset];
    assert (stream + more)[offset + 1..offset + 1 + n] == stream[offset + 1..offset + 1 + n];
  }

  lemma NewFrame(stream: seq<byte>, record: seq<byte>)
    requires 1 <= |record| < 256
    ensures ReadFrame(stream + [|record|] + record, |stream|) == Some(record)
  {
    var whole := stream + [|record|] + record;
    assert whole[|stream|] == |record| && whole[|stream| + 1..|stream| + 1 + |record|] == record;
  }

  lemma FrameSize(stream: seq<byte>, at: nat)
    requires ReadFrame(stream, at).Some?
    ensures at + 1 + |ReadFrame(stream, at).value| <= |stream|
  {
  }

  /** One more frame behind a stream that can be read to its end. */
  lemma {:induction false} FramesGrow(stream: seq<byte>, record: seq<byte>, at: nat)
    requires at <= |stream| && ReadFrames(stream, at).Some? && 1 <= |record| < 256
    ensures var (records, offsets) := ReadFrames(stream, at).value;
            ReadFrames(stream + [|record|] + record, at) == Some((records + [record], offsets + [|stream|]))
    decreases |stream| - at
  {
    hide ReadFrame;
    var longer := stream + [|record|] + record;
    if at == |stream| {
      NewFrame(stream, record);
      assert at + 1 + |record| == |longer| && ReadFrames(longer, |longer|) == Some(([], []));
      assert [record] + [] == [] + [record] && [at] + [] == [] + [at];
    } else {
      FrameStays(stream, [|record|] + record, at);
      assert stream + ([|record|] + record) == longer;
      FrameSize(stream, at);
      var first := ReadFrame(stream, at).value;
      var next := at + 1 + |first|;
      FramesGrow(stream, record, next);
      var (records, offsets) := ReadFrames(stream, next).value;
      assert [first] + (records + [record]) == [first] + records + [record];
      assert [at] + (offsets + [|stream|]) == [at] + offsets + [|stream|];
    }
  }

  /** Each record can be read at its offset too. */
  lemma {:induction false} FrameAtOffset(stream: seq<byte>, at: nat, i: nat)
    requires ReadFrames(stream, at).Some? && i < |ReadFrames(stream, at).value.0|
    ensures var (records, offsets) := ReadFrames(stream, at).value;
            |offsets| == |records| && ReadFrame(stream, offsets[i]) == Some(records[i])
    decreases i
  {
    hide ReadFrame;
    FramesPair(stream, at);
    if i > 0 {
      FrameAtOffset(stream, at + 1 + |ReadFrame(stream, at).value|, i - 1);
    }
  }

  lemma {:induction false} FramesPair(stream: seq<byte>, at: nat)
    requires ReadFrames(stream, at).Some?
    ensures |ReadFrames(stream, at).value.0| == |ReadFrames(stream, at).value.1|
    decreases |stream| - at
  {
    hide ReadFrame;
    if at < |stream| {
      FramesPair(stream, at + 1 + |ReadFrame(stream, at).value|);
    }
  }

  /** `write_encoded_record` for every key, in order. */
  method WriteStream(keys: seq<seq<i64>>) returns (stream: seq<byte>, offsets: seq<nat>)
    requires forall i | 0 <= i < |keys| :: |keys[i]| <= 8
    ensures Framed(keys, stream, offsets)
  {
    hide ReadFrame, Encoded, Record;
    stream, offsets := [], [];
    for i := 0 to |keys|
      invariant Framed(keys[..i], stream, offsets)
    {
      var record := EncodeIntegerRecord(keys[i]);
      EncodedIs(keys[i]);
      EncodedIsSmall(keys[i]);
      FramesGrow(stream, record[..], 0);
      assert EncodedAll(keys[..i + 1]) == EncodedAll(keys[..i]) + [record[..]];
      offsets := offsets + [|stream|];
      stream := stream + [record.Length] + record[..];
    }
    assert keys[..|keys|] == keys;
  }

  lemma EncodedIs(key: seq<i64>)
    requires |key| <= 8
    ensures AllHoldable(Integers(key)) && Encoded(key) == Record(Integers(key))
  {
  }

  // ---------------------------------------------------------------- the index

  /** No two rows agree on all sorted fields. */
  ghost predicate UniqueRows(rows: seq<Tuple>, fields: seq<nat>)
    requires forall i | 0 <= i < |fields| :: fields[i] < 4
  {
    forall i, j | 0 <= i < j < |rows| :: FieldsOf(fields, rows[i]) != FieldsOf(fields, rows[j])
  }

  /** The keys of the rows, in row order. */
  ghost predicate PackedRows(codec: Codec, widths: seq<nat>, rows: seq<Tuple>, keys: seq<nat>) {
    && Lays(codec, widths) && |widths| <= 4 && Usable(codec) && |keys| == |rows|
    && forall i | 0 <= i < |rows| :: InRange(codec, widths, rows[i]) && AtLeastMinimum(codec, rows[i])
                                     && keys[i] == Pack(codec, rows[i])
  }

  lemma UniqueKeys(codec: Codec, widths: seq<nat>, rows: seq<Tuple>, keys: seq<nat>)
    requires PackedRows(codec, widths, rows, keys)
    ensures NoneTwice(keys) <==> UniqueRows(rows, codec.fields)
  {
    hide Pack, Lays, InRange, AtLeastMinimum, FieldsOf;
    FieldsFit(codec, widths);
    forall i, j | 0 <= i < j < |rows|
      ensures keys[i] == keys[j] <==> FieldsOf(codec.fields, rows[i]) == FieldsOf(codec.fields, rows[j]) {
      PackKeepsOrder(codec, widths, rows[i], rows[j]);
    }
  }

  lemma FieldsFit(codec: Codec, widths: seq<nat>)
    requires Lays(codec, widths)
    ensures forall i | 0 <= i < |codec.fields| :: codec.fields[i] < 4
  {
  }

  /** The row a sorted key stands for. */
  lemma RowOf(codec: Codec, widths: seq<nat>, rows: seq<Tuple>, keys: seq<nat>, out: seq<nat>, i: nat) returns (r: nat)
    requires PackedRows(codec, widths, rows, keys) && multiset(out) == multiset(keys) && i < |out|
    ensures r < |rows| && out[i] == keys[r] && Unpack(codec, out[i]) == Projected(codec.fields, rows[r])
  {
    hide Pack, Lays, InRange, AtLeastMinimum, Unpack, Projected;
    assert out[i] in multiset(out);
    r :| 0 <= r < |keys| && keys[r] == out[i];
    PackRoundTrip(codec, widths, rows[r]);
  }

  lemma ProjectionKeepsFields(fields: seq<nat>, tuple: Tuple)
    requires forall i | 0 <= i < |fields| :: fields[i] < 4
    ensures FieldsOf(fields, Projected(fields, tuple)) == FieldsOf(fields, tuple)
  {
    forall i | 0 <= i < |fields| ensures Projected(fields, tuple)[fields[i]] == tuple[fields[i]] {
      assert fields[i] in fields;
    }
  }

  /** Neighbouring keys unpack to neighbouring tuples. */
  lemma NeighbourTuples(codec: Codec, widths: seq<nat>, rows: seq<Tuple>, keys: seq<nat>, out: seq<nat>, i: nat)
    requires PackedRows(codec, widths, rows, keys) && multiset(out) == multiset(keys) && Sorted(out) && 0 < i < |out|
    ensures forall j | 0 <= j < |codec.fields| :: codec.fields[j] < 4
    ensures var x, y := FieldsOf(codec.fields, Unpack(codec, out[i - 1])),
            FieldsOf(codec.fields, Unpack(codec, out[i]));
            && (out[i - 1] == out[i] <==> x == y) && (x != y ==> Before(x, y))
  {
    hide Pack, Lays, InRange, AtLeastMinimum, Unpack, Projected, FieldsOf, Before;
    FieldsFit(codec, widths);
    var a := RowOf(codec, widths, rows, keys, out, i - 1);
    var b := RowOf(codec, widths, rows, keys, out, i);
    ProjectionKeepsFields(codec.fields, rows[a]);
    ProjectionKeepsFields(codec.fields, rows[b]);
    PackKeepsOrder(codec, widths, rows[a], rows[b]);
  }

  lemma SameTuples(codec: Codec, widths: seq<nat>, rows: seq<Tuple>, keys: seq<nat>, out: seq<nat>)
    requires PackedRows(codec, widths, rows, keys) && multiset(out) == multiset(keys)
    ensures multiset(MapAll(out, k => Unpack(codec, k))) == multiset(MapAll(rows, t => Projected(codec.fields, t)))
  {
    hide Pack, Lays, InRange, AtLeastMinimum, Unpack, Projected;
    MapMultiset(out, keys, k => Unpack(codec, k));
    forall i | 0 <= i < |rows| ensures Unpack(codec, keys[i]) == Projected(codec.fields, rows[i]) {
      PackRoundTrip(codec, widths, rows[i]);
    }
    assert MapAll(keys, k => Unpack(codec, k)) == MapAll(rows, t => Projected(codec.fields, t));
  }

  datatype SortedIndex = SortedIndex(tuples: seq<Tuple>, stream: seq<byte>, offsets: seq<nat>,
                                     statistics: Sampler.FullIndexStatistics)

  ghost function KeysOf(fields: seq<nat>, tuples: seq<Tuple>): (keys: seq<seq<i64>>)
    requires forall i | 0 <= i < |fields| :: fields[i] < 4
    ensures |keys| == |tuples| && forall i | 0 <= i < |keys| :: keys[i] == RecordKey(fields, tuples[i])
  {
    seq(|tuples|, i requires 0 <= i < |tuples| => RecordKey(fields, tuples[i]))
  }

  /** The sorted index of these rows: all of them, in strict order, as records that can be read back,
      with statistics that are exact counts, each sample leading to the record of its row. */
  ghost predicate IndexOf(rows: seq<Tuple>, spec: IndexSpec, index: SortedIndex)
    requires SpecOk(spec, 4)
  {
    SpecFields(spec, 4);
    var keys := KeysOf(spec.recordFields, index.tuples);
    && multiset(index.tuples) == multiset(MapAll(rows, t => Projected(spec.sortedFields, t)))
    && (forall i | 0 < i < |index.tuples| ::
          Before(FieldsOf(spec.sortedFields, index.tuples[i - 1]), FieldsOf(spec.sortedFields, index.tuples[i])))
    && (forall i | 0 <= i < |keys| :: |keys[i]| <= 8)
    && Framed(keys, index.stream, index.offsets)
    && KeyCounts.Keys(keys, |spec.recordFields|)
    && if rows == [] then index.statistics.stat1 == [] && index.statistics.samples == []
       else KeyCounts.Exact(keys, index.offsets, |spec.recordFields|, spec.keyColumns, index.statistics)
  }

  lemma SpecIsUsable(spool: IntegerSpool, spec: IndexSpec, codec: Codec, widths: seq<nat>)
    requires spool.Valid() && SpecOk(spec, spool.fields) && Lays(codec, widths) && codec.fields == spec.sortedFields
    requires forall i | 0 <= i < |spool.rows| :: InRange(codec, widths, spool.rows[i])
    ensures SpecOk(spec, 4) && |widths| <= 4 && Usable(codec)
    ensures forall i | 0 <= i < |spool.rows| :: AtLeastMinimum(codec, spool.rows[i])
    ensures forall i | 0 <= i < |spec.sortedFields| :: spec.sortedFields[i] < 4
    ensures forall i | 0 <= i < |spec.recordFields| :: spec.recordFields[i] < 4
    ensures 1 <= spec.keyColumns <= |spec.recordFields| <= 8
  {
    SpecFields(spec, spool.fields);
    forall i | 0 <= i < |spool.rows| ensures AtLeastMinimum(codec, spool.rows[i]) {
      InRangeIs(codec, widths, spool.rows[i]);
    }
  }

  method PackRows(codec: Codec, ghost widths: seq<nat>, rows: seq<Tuple>) returns (keys: seq<nat>)
    requires Lays(codec, widths) && |widths| <= 4 && Usable(codec)
    requires forall i | 0 <= i < |rows| :: InRange(codec, widths, rows[i]) && AtLeastMinimum(codec, rows[i])
    ensures PackedRows(codec, widths, rows, keys) && Narrow(keys, Passes(codec))
  {
    hide Pack, Lays, InRange, AtLeastMinimum, Passes, Pow256;
    keys := [];
    for i := 0 to |rows|
      invariant |keys| == i && Narrow(keys, Passes(codec))
      invariant forall j | 0 <= j < i :: keys[j] == Pack(codec, rows[j])
    {
      PackIsNarrow(codec, widths, rows[i]);
      keys := keys + [Pack(codec, rows[i])];
    }
  }

  method UnpackAll(codec: Codec, keys: seq<nat>) returns (tuples: seq<Tuple>)
    requires Usable(codec)
    ensures tuples == MapAll(keys, k => Unpack(codec, k))
  {
    hide Unpack;
    tuples := [];
    for i := 0 to |keys|
      invariant |tuples| == i && forall j | 0 <= j < i :: tuples[j] == Unpack(codec, keys[j])
    {
      tuples := tuples + [Unpack(codec, keys[i])];
    }
  }

  method RecordKeys(fields: seq<nat>, tuples: seq<Tuple>) returns (keys: seq<seq<i64>>)
    requires forall i | 0 <= i < |fields| :: fields[i] < 4
    ensures keys == KeysOf(fields, tuples)
  {
    keys := [];
    for i := 0 to |tuples|
      invariant |keys| == i && forall j | 0 <= j < i :: keys[j] == RecordKey(fields, tuples[j])
    {
      keys := keys + [RecordKey(fields, tuples[i])];
    }
  }

  /** The record keys arrive in index order, with equal neighbours exactly where sort keys are equal. */
  lemma SortedRecords(codec: Codec, widths: seq<nat>, rows: seq<Tuple>, keys: seq<nat>, out: seq<nat>, spec: IndexSpec,
                      tuples: seq<Tuple>)
    requires PackedRows(codec, widths, rows, keys) && multiset(out) == multiset(keys) && Sorted(out)
    requires SpecOk(spec, 4) && codec.fields == spec.sortedFields && tuples == MapAll(out, k => Unpack(codec, k))
    ensures forall i | 0 <= i < |spec.sortedFields| :: spec.sortedFields[i] < 4
    ensures forall i | 0 <= i < |spec.recordFields| :: spec.recordFields[i] < 4
    ensures KeyCounts.Keys(KeysOf(spec.recordFields, tuples), |spec.recordFields|)
    ensures KeyCounts.InOrder(KeysOf(spec.recordFields, tuples), |spec.recordFields|)
    ensures forall i | 0 < i < |out| ::
              KeysOf(spec.recordFields, tuples)[i - 1] == KeysOf(spec.recordFields, tuples)[i] <==> out[i - 1] == out[i]
    ensures forall i | 0 < i < |out| && out[i - 1] != out[i] ::
              Before(FieldsOf(spec.sortedFields, tuples[i - 1]), FieldsOf(spec.sortedFields, tuples[i]))
  {
    hide PackedRows, Sorted, Unpack, FieldsOf, Before, SpecOk, KeyCounts.LessUpTo, RecordKey;
    SpecFields(spec, 4);
    SomeColumns(spec);
    forall i | 0 < i < |out|
      ensures var a, b := RecordKey(spec.recordFields, tuples[i - 1]), RecordKey(spec.recordFields, tuples[i]);
              && (a == b <==> out[i - 1] == out[i])
              && (a == b || KeyCounts.LessUpTo(a, b, |spec.recordFields| - 1))
              && (a != b ==> Before(FieldsOf(spec.sortedFields, tuples[i - 1]),
                                    FieldsOf(spec.sortedFields, tuples[i]))) {
      NeighbourTuples(codec, widths, rows, keys, out, i);
      RecordsKeepOrder(spec, 4, tuples[i - 1], tuples[i]);
    }
  }

  lemma SomeColumns(spec: IndexSpec)
    requires SpecOk(spec, 4)
    ensures 1 <= |spec.recordFields| <= 8
  {
  }

  lemma SameSize(out: seq<nat>, keys: seq<nat>)
    requires multiset(out) == multiset(keys)
    ensures |out| == |keys|
  {
    assert |multiset(out)| == |out| && |multiset(keys)| == |keys|;
  }

  lemma SampleIsARow(keys: seq<KeyCounts.Key>, offsets: seq<nat>, columns: nat, keyColumns: nat,
                     full: Sampler.FullIndexStatistics)
    requires KeyCounts.Keys(keys, columns) && keyColumns <= columns && |keys| == |offsets|
    requires KeyCounts.Exact(keys, offsets, columns, keyColumns, full) && full.samples != []
    ensures keys != []
  {
    assert full.samples[0].less[columns - 1] < |keys|;
  }

  /** Without rows nothing is sampled. */
  lemma NoSamples(keys: seq<KeyCounts.Key>, offsets: seq<nat>, columns: nat, keyColumns: nat,
                  full: Sampler.FullIndexStatistics)
    requires KeyCounts.Keys(keys, columns) && keyColumns <= columns && |keys| == |offsets| == 0
    requires KeyCounts.Exact(keys, offsets, columns, keyColumns, full)
    ensures full.samples == []
  {
    if full.samples != [] {
      SampleIsARow(keys, offsets, columns, keyColumns, full);
    }
  }

  lemma IndexIs(rows: seq<Tuple>, spec: IndexSpec, codec: Codec, widths: seq<nat>, packed: seq<nat>, out: seq<nat>,
                tuples: seq<Tuple>, stream: seq<byte>, offsets: seq<nat>, full: Sampler.FullIndexStatistics)
    requires PackedRows(codec, widths, rows, packed) && multiset(out) == multiset(packed) && Sorted(out)
    requires SpecOk(spec, 4) && codec.fields == spec.sortedFields && tuples == MapAll(out, k => Unpack(codec, k))
    requires forall i | 0 <= i < |spec.recordFields| :: spec.recordFields[i] < 4
    requires var keys := KeysOf(spec.recordFields, tuples);
             && (forall i | 0 <= i < |keys| :: |keys[i]| <= 8) && Framed(keys, stream, offsets)
             && KeyCounts.Keys(keys, |spec.recordFields|) && spec.keyColumns <= |spec.recordFields|
             && KeyCounts.Distinct(keys) && KeyCounts.Exact(keys, offsets, |spec.recordFields|, spec.keyColumns, full)
    ensures IndexOf(rows, spec, SortedIndex(tuples, stream, offsets, if |rows| == 0 then full.(stat1 := []) else full))
  {
    hide Unpack, Sorted, SpecOk, FieldsOf, Before, Projected, Framed, KeyCounts.Exact, Pack;
    SameTuples(codec, widths, rows, packed, out);
    SortedRecords(codec, widths, rows, packed, out, spec, tuples);
    SameSize(out, packed);
    SameCount(codec, widths, rows, packed);
    SameOffsets(KeysOf(spec.recordFields, tuples), stream, offsets);
    if |rows| == 0 {
      NoSamples(KeysOf(spec.recordFields, tuples), offsets, |spec.recordFields|, spec.keyColumns, full);
    }
  }

  /** Sorts an index: the tuples of the spool become packed keys, sorted runs, one merged stream. */
  method SortIndex(spool: IntegerSpool, spec: IndexSpec, capacity: nat, workers: nat, seed: nat)
      returns (r: Result<SortedIndex>)
    requires spool.Valid() && capacity >= 1 && workers >= 1 && |spool.rows| <= Sampler.U64_MAX
    ensures r.Ok? ==> SpecOk(spec, spool.fields) && SpecOk(spec, 4) && IndexOf(spool.rows, spec, r.value)
    ensures r.Err? <==> !SpecOk(spec, spool.fields)
                        || ((forall i | 0 <= i < |spec.sortedFields| :: spec.sortedFields[i] < 4)
                            && !UniqueRows(spool.rows, spec.sortedFields))
  {
    hide Pack, Unpack, Passes, Lays, InRange, AtLeastMinimum, Sorted, UniqueRows, Framed, SpecOk, IndexOf, PackedRows,
         FieldsOf, Before;
    var made;
    ghost var widths;
    made, widths := NewCodec(spool, spec);
    if made.Err? {
      return Err(made.message);
    }
    var codec := made.value;
    SpecIsUsable(spool, spec, codec, widths);
    var packed := PackRows(codec, widths, spool.rows);
    var out := SortKeys(packed, capacity, workers, Passes(codec));
    var tuples := UnpackAll(codec, out);
    SameSize(out, packed);
    SameCount(codec, widths, spool.rows, packed);
    SortedRecords(codec, widths, spool.rows, packed, out, spec, tuples);
    NeighboursTell(packed, out);
    UniqueKeys(codec, widths, spool.rows, packed);
    var keys := RecordKeys(spec.recordFields, tuples);
    var stream, offsets := WriteStream(keys);
    SameOffsets(keys, stream, offsets);
    var statistics := KeyCounts.Analyze(keys, offsets, |spec.recordFields|, spec.keyColumns, seed);
    if statistics.Err? {
      return Err(statistics.message);
    }
    var full := statistics.value;
    IndexIs(spool.rows, spec, codec, widths, packed, out, tuples, stream, offsets, full);
    if |spool.rows| == 0 {
      full := full.(stat1 := []);
    }
    r := Ok(SortedIndex(tuples, stream, offsets, full));
  }

  lemma SameCount(codec: Codec, widths: seq<nat>, rows: seq<Tuple>, packed: seq<nat>)
    requires PackedRows(codec, widths, rows, packed)
    ensures |packed| == |rows|
  {
  }

  lemma SameOffsets(keys: seq<seq<i64>>, stream: seq<byte>, offsets: seq<nat>)
    requires (forall i | 0 <= i < |keys| :: |keys[i]| <= 8) && Framed(keys, stream, offsets)
    ensures |offsets| == |keys|
  {
  }
}
