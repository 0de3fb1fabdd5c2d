/** SQLite records: encoding, decoding, and the encoders specialised to fixed row shapes
    (`page_writer.rs` and `encode_integer_record` in `index_builder.rs`; section 2.1 of the SQLite
    file format). */
module RecordCodec {
  import opened Bytes
  import opened Powers
  import opened Results
  import opened Utf8
  import opened Varints

  /** Text is kept as its UTF-8 bytes, reals as their 64 bits. */
  datatype StorageValue =
    | Null | Integer(value: i64) | Real(bits: u64) | Text(utf8: seq<byte>) | Blob(bytes: seq<byte>)

  /** A value the program can hold: text is valid, and lengths are below 2^62. */
  predicate Holdable(v: StorageValue) {
    match v
    case Text(utf8) => ValidUtf8(utf8) && |utf8| < 0x4000_0000_0000_0000
    case Blob(bytes) => |bytes| < 0x4000_0000_0000_0000
    case _ => true
  }

  predicate AllHoldable(values: seq<StorageValue>) {
    |values| < U32 && forall i | 0 <= i < |values| :: Holdable(values[i])
  }

  // ---------------------------------------------------------------- serial types

  /** Serial type and payload width of an integer. */
  function IntegerType(v: i64): (u64, nat) {
    if v == 0 then (8, 0)
    else if v == 1 then (9, 0)
    else if -0x80 <= v <= 0x7F then (1, 1)
    else if -0x8000 <= v <= 0x7FFF then (2, 2)
    else if -0x80_0000 <= v <= 0x7F_FFFF then (3, 3)
    else if -0x8000_0000 <= v <= 0x7FFF_FFFF then (4, 4)
    else if -0x8000_0000_0000 <= v <= 0x7FFF_FFFF_FFFF then (5, 6)
    else (6, 8)
  }

  function SerialType(v: StorageValue): u64
    requires Holdable(v)
  {
    match v
    case Null => 0
    case Integer(n) => IntegerType(n).0
    case Real(_) => 7
    case Text(utf8) => 13 + 2 * |utf8|
    case Blob(bytes) => 12 + 2 * |bytes|
  }

  /** The last `width` bytes of the big-endian form. */
  function IntegerBytes(v: i64, width: nat): seq<byte>
    requires width <= 8
  {
    BigEndian(ToU64(v), 8)[8 - width..]
  }

  function WidthOfTag(tag: u64): nat {
    if 1 <= tag <= 4 then tag else if tag == 5 then 6 else if tag == 6 then 8 else 0
  }

  function Body(v: StorageValue): seq<byte>
    requires Holdable(v)
  {
    match v
    case Null => []
    case Integer(n) => IntegerBytes(n, WidthOfTag(SerialType(v)))
    case Real(bits) => BigEndian(bits, 8)
    case Text(utf8) => utf8
    case Blob(bytes) => bytes
  }

  // ---------------------------------------------------------------- records

  function Tags(values: seq<StorageValue>): seq<byte>
    requires AllHoldable(values)
  {
    if values == [] then [] else Varint(SerialType(values[0])) + Tags(values[1..])
  }

  function Bodies(values: seq<StorageValue>): seq<byte>
    requires AllHoldable(values)
  {
    if values == [] then [] else Body(values[0]) + Bodies(values[1..])
  }

  lemma {:induction false} TagsAreShort(values: seq<StorageValue>)
    requires AllHoldable(values)
    ensures |Tags(values)| <= 9 * |values|
  {
    if values != [] {
      TagsAreShort(values[1..]);
      VarintLengthIsMinimal(SerialType(values[0]));
    }
  }

  // ---------------------------------------------------------------- the header length

  lemma {:induction false} Pow128Grows(a: nat, b: nat)
    requires a <= b
    ensures Pow128(a) <= Pow128(b)
  {
    if a < b {
      Pow128Grows(a, b - 1);
    }
  }

  lemma VarintLengthGrows(a: u64, b: u64)
    requires a <= b
    ensures 1 <= VarintLength(a) <= VarintLength(b) <= 9
  {
    VarintLengthIsMinimal(a);
    VarintLengthIsMinimal(b);
    if VarintLength(a) > VarintLength(b) {
      Pow128Grows(VarintLength(b), VarintLength(a) - 1);
      assert false;
    }
  }

  /** A header length counts its own varint. */
  ghost predicate CountsItself(tagBytes: nat, header: nat) {
    header < U64 && header == tagBytes + VarintLength(header)
  }

  /** Lengths are tried upwards until one counts itself. */
  function HeaderFrom(tagBytes: nat, header: nat): (h: nat)
    requires tagBytes + 9 < U64 && header <= tagBytes + 9 && header <= tagBytes + VarintLength(header)
    ensures CountsItself(tagBytes, h) && h >= header
    ensures forall other :: header <= other && CountsItself(tagBytes, other) ==> h <= other
    decreases tagBytes + 9 - header
  {
    VarintLengthIsMinimal(header);
    var next := tagBytes + VarintLength(header);
    if next == header then header
    else
      VarintLengthGrows(header, next);
      assert forall other :: header <= other && CountsItself(tagBytes, other) ==> next <= other by {
        forall other: nat | header <= other && CountsItself(tagBytes, other) ensures next <= other {
          VarintLengthGrows(header, other);
        }
      }
      HeaderFrom(tagBytes, next)
  }

  /** The least length that counts itself. */
  function HeaderSize(tagBytes: nat): (h: nat)
    requires tagBytes + 9 < U64
    ensures CountsItself(tagBytes, h) && forall other :: CountsItself(tagBytes, other) ==> h <= other
  {
    VarintLengthIsMinimal(tagBytes + 1);
    assert forall other :: CountsItself(tagBytes, other) ==> tagBytes + 1 <= other by {
      forall other: nat | CountsItself(tagBytes, other) ensures tagBytes + 1 <= other {
        VarintLengthIsMinimal(other);
      }
    }
    HeaderFrom(tagBytes, tagBytes + 1)
  }

  /** The record format: header length, serial types, values. */
  function Record(values: seq<StorageValue>): seq<byte>
    requires AllHoldable(values)
  {
    TagsAreShort(values);
    Varint(HeaderSize(|Tags(values)|)) + Tags(values) + Bodies(values)
  }

  // ---------------------------------------------------------------- decoding

  /** Adds a byte at the low end of a 64-bit integer. */
  function ShiftIn(integer: i64, b: byte): i64 {
    ToI64((ToU64(integer) * 256) % U64 + b)
  }

  function ShiftAll(integer: i64, bytes: seq<byte>): i64 {
    if bytes == [] then integer else ShiftIn(ShiftAll(integer, bytes[..|bytes| - 1]), bytes[|bytes| - 1])
  }

  function DecodeInteger(bytes: seq<byte>): i64
    requires bytes != []
  {
    ShiftAll(if bytes[0] >= 0x80 then -1 else 0, bytes)
  }

  function DecodeValue(tag: nat, bytes: seq<byte>): Result<StorageValue>
    requires 1 <= tag <= 6 ==> bytes != []
    requires tag == 7 ==> |bytes| == 8
  {
    if tag == 0 then Ok(Null)
    else if tag <= 6 then Ok(Integer(DecodeInteger(bytes)))
    else if tag == 7 then (WordFits(bytes); Ok(Real(FromBigEndian(bytes))))
    else if tag == 8 then Ok(Integer(0))
    else if tag == 9 then Ok(Integer(1))
    else if tag % 2 == 0 then Ok(Blob(bytes))
    else if ValidUtf8(bytes) then Ok(Text(bytes))
    else Err("record text is not UTF-8")
  }

  lemma {:induction false} WordFits(bytes: seq<byte>)
    ensures FromBigEndian(bytes) < Pow256(|bytes|)
    ensures |bytes| == 8 ==> FromBigEndian(bytes) < U64
    decreases |bytes|
  {
    if bytes != [] {
      WordFits(bytes[..|bytes| - 1]);
    }
    assert Pow256(8) == U64;
  }

  function LengthOfTag(tag: nat): Result<nat> {
    if tag == 10 || tag == 11 then Err("reserved record serial type")
    else if tag >= 12 then Ok((tag - 12) / 2)
    else Ok(if 1 <= tag <= 4 then tag else if tag == 5 then 6 else if tag == 6 || tag == 7 then 8 else 0)
  }

  /** The values whose serial types lie in `header..headerEnd`, their bytes from `body` on. */
  function ReadValues(bytes: seq<byte>, header: nat, headerEnd: nat, body: nat): Result<seq<StorageValue>>
    requires header <= headerEnd <= |bytes|
    decreases headerEnd - header
  {
    if header == headerEnd then Ok([])
    else
      match ReadVarint(bytes[..headerEnd], header)
      case Err(m) => Err(m)
      case Ok((tag, next)) =>
        match LengthOfTag(tag)
        case Err(m) => Err(m)
        case Ok(length) =>
          if body + length > |bytes| then Err("truncated record value")
          else
            match DecodeValue(tag, bytes[body..body + length])
            case Err(m) => Err(m)
            case Ok(value) =>
              match ReadValues(bytes, next, headerEnd, body + length)
              case Err(m) => Err(m)
              case Ok(rest) => Ok([value] + rest)
  }

  function ReadRecord(bytes: seq<byte>): Result<seq<StorageValue>> {
    match ReadVarint(bytes, 0)
    case Err(m) => Err(m)
    case Ok((headerEnd, header)) =>
      if headerEnd < header || headerEnd > |bytes| then Err("invalid record header")
      else ReadValues(bytes, header, headerEnd, headerEnd)
  }

  // ---------------------------------------------------------------- integers

  lemma {:induction false} BigEndianTail(value: nat, width: nat, n: nat)
    requires n <= width
    ensures BigEndian(value, width)[width - n..] == BigEndian(value, n)
  {
    if n > 0 {
      BigEndianTail(value / 256, width - 1, n - 1);
      assert BigEndian(value, width)[width - n..] == BigEndian(value / 256, width - 1)[width - n..] + [value % 256];
    }
  }

  /** Shifting bytes in multiplies and adds, modulo 2^64. */
  lemma {:induction false} ShiftAllIs(start: i64, bytes: seq<byte>)
    ensures (ToU64(ShiftAll(start, bytes)) - ToU64(start) * Pow256(|bytes|) - FromBigEndian(bytes)) % U64 == 0
    decreases |bytes|
  {
    if bytes != [] {
      var k := |bytes| - 1;
      ShiftAllIs(start, bytes[..k]);
      StepMod(ToU64(ShiftAll(start, bytes[..k])), ToU64(start), Pow256(k), FromBigEndian(bytes[..k]), bytes[k]);
    }
  }

  lemma StepMod(a: nat, s: nat, p: nat, f: nat, b: nat)
    requires (a - s * p - f) % U64 == 0
    ensures ((a * 256) % U64 + b - s * (256 * p) - (f * 256 + b)) % U64 == 0
  {
    var q := (a - s * p - f) / U64;
    assert a - s * p - f == q * U64;
    assert a * 256 - s * (256 * p) - f * 256 == 256 * q * U64;
    var t := (a * 256) / U64;
    assert (a * 256) % U64 == a * 256 - t * U64;
    assert (a * 256) % U64 - s * (256 * p) - f * 256 == (256 * q - t) * U64;
  }

  lemma {:induction false} LowBytes(value: nat, width: nat)
    ensures FromBigEndian(BigEndian(value, width)) == value % Pow256(width)
  {
    if width > 0 {
      LowBytes(value / 256, width - 1);
      assert BigEndian(value, width)[..width - 1] == BigEndian(value / 256, width - 1);
      ModStep(value, Pow256(width - 1));
    }
  }

  lemma ModStep(value: nat, p: nat)
    requires p >= 1
    ensures value % (256 * p) == ((value / 256) % p) * 256 + value % 256
  {
    var q, r := (value / 256) / p, (value / 256) % p;
    assert value / 256 == q * p + r && value == (value / 256) * 256 + value % 256;
    assert (q * p) * 256 == q * (256 * p);
    Remainder(value, 256 * p, q, r * 256 + value % 256);
  }

  lemma {:induction false} FirstByte(bytes: seq<byte>)
    requires bytes != []
    ensures bytes[0] * Pow256(|bytes| - 1) <= FromBigEndian(bytes) < (bytes[0] + 1) * Pow256(|bytes| - 1)
    decreases |bytes|
  {
    var k := |bytes| - 1;
    if k == 0 {
      assert bytes[..0] == [];
    } else {
      FirstByte(bytes[..k]);
      Scale(bytes[0], Pow256(k - 1), FromBigEndian(bytes[..k]), bytes[k]);
    }
  }

  lemma Scale(first: nat, p: nat, f: nat, b: nat)
    requires first * p <= f < (first + 1) * p && b < 256
    ensures first * (256 * p) <= f * 256 + b < (first + 1) * (256 * p)
  {
    assert f + 1 <= (first + 1) * p;
    assert first * (256 * p) == 256 * (first * p) && (first + 1) * (256 * p) == 256 * ((first + 1) * p);
  }

  /** The integer fits in `width` bytes, two's complement. */
  ghost predicate FitsSigned(v: i64, width: nat)
    requires width >= 1
  {
    -128 * Pow256(width - 1) <= v < 128 * Pow256(width - 1)
  }

  /** An integer takes the narrowest of the widths that serial types have, and none for zero and one. */
  lemma NarrowestInteger(v: i64)
    ensures var (tag, width) := IntegerType(v);
            && LengthOfTag(tag) == Ok(width) && (width == 0 <==> v == 0 || v == 1)
            && (width > 0 ==> tag <= 6 && FitsSigned(v, width))
            && forall other: nat | 1 <= other <= 6 && 1 <= LengthOfTag(other).value < width ::
                 !FitsSigned(v, LengthOfTag(other).value)
  {
    SomePowers();
    hide Pow256;
  }

  lemma SomePowers()
    ensures Pow256(0) == 1 && Pow256(1) == 0x100 && Pow256(2) == 0x1_0000 && Pow256(3) == 0x100_0000
    ensures Pow256(5) == 0x100_0000_0000 && Pow256(7) == 0x100_0000_0000_0000
  {
    assert Pow256(4) == 0x1_0000_0000;
    assert Pow256(6) == 0x1_0000_0000_0000;
  }

  /** The kind and the length of a value can be told from its serial type, by the numbers of section 2.1. */
  lemma SerialTypeTells(v: StorageValue)
    requires Holdable(v)
    ensures var tag := SerialType(v);
            && (v.Null? <==> tag == 0) && (v.Real? <==> tag == 7)
            && (v.Integer? <==> 1 <= tag <= 6 || tag in {8, 9})
            && (v.Blob? <==> tag >= 12 && tag % 2 == 0) && (v.Text? <==> tag >= 13 && tag % 2 == 1)
            && LengthOfTag(tag) == Ok(|Body(v)|)
  {
    hide BigEndian;
  }

  /** The stored bytes as a number. */
  lemma StoredNumber(v: i64, width: nat)
    requires 1 <= width <= 8 && FitsSigned(v, width)
    ensures var bytes := IntegerBytes(v, width);
            |bytes| == width && FromBigEndian(bytes) == if v < 0 then v + Pow256(width) else v
  {
    BigEndianTail(ToU64(v), 8, width);
    LowBytes(ToU64(v), width);
    WordPower(width);
    hide FromBigEndian, BigEndian, Pow256;
    ModOfWord(v, Pow256(width), Pow256(8 - width), Pow256(width - 1));
  }

  lemma ModOfWord(v: i64, p: nat, k: nat, h: nat)
    requires p == 256 * h && k >= 1 && h >= 1 && (k - 1) * p == U64 - p && -128 * h <= v < 128 * h
    ensures ToU64(v) % p == if v < 0 then v + p else v
  {
    if v < 0 {
      Remainder(ToU64(v), p, k - 1, v + p);
    } else {
      Remainder(ToU64(v), p, 0, v);
    }
  }

  /** The stored bytes as a number, and their sign. */
  lemma StoredInteger(v: i64, width: nat)
    requires 1 <= width <= 8 && FitsSigned(v, width)
    ensures var bytes := IntegerBytes(v, width);
            && |bytes| == width && FromBigEndian(bytes) == (if v < 0 then v + Pow256(width) else v)
            && (bytes[0] >= 0x80 <==> v < 0)
  {
    hide FromBigEndian, BigEndian, Pow256, IntegerBytes;
    StoredNumber(v, width);
    WordPower(width);
    var bytes := IntegerBytes(v, width);
    FirstByte(bytes);
    SignOf(bytes[0], Pow256(width - 1), FromBigEndian(bytes), v);
  }

  lemma TimesGrows(a: nat, b: nat, h: nat)
    requires a <= b
    ensures a * h <= b * h
  {
  }

  lemma SignOf(first: nat, h: nat, f: nat, v: int)
    requires h >= 1 && first * h <= f < (first + 1) * h && -128 * h <= v < 128 * h && first < 256
    requires f == if v < 0 then v + 256 * h else v
    ensures first >= 0x80 <==> v < 0
  {
    if first >= 128 {
      TimesGrows(128, first, h);
    } else {
      TimesGrows(first + 1, 128, h);
    }
  }

  lemma WordPower(width: nat)
    requires 1 <= width <= 8
    ensures Pow256(width) == 256 * Pow256(width - 1) && Pow256(8 - width) * Pow256(width) == U64
    ensures (Pow256(8 - width) - 1) * Pow256(width) == U64 - Pow256(width)
  {
    Pow256Sum(8 - width, width);
    assert Pow256(8) == U64;
    hide Pow256;
    var k, p := Pow256(8 - width), Pow256(width);
    assert (k - 1) * p == k * p - p;
  }

  lemma IntegerRoundTrip(v: i64, width: nat)
    requires 1 <= width <= 8 && FitsSigned(v, width)
    ensures |IntegerBytes(v, width)| == width && DecodeInteger(IntegerBytes(v, width)) == v
  {
    StoredInteger(v, width);
    var bytes := IntegerBytes(v, width);
    var start: i64 := if v < 0 then -1 else 0;
    ShiftAllIs(start, bytes);
    hide IntegerBytes, FromBigEndian, ShiftAll;
    SameModulo(ToU64(ShiftAll(start, bytes)), v, Pow256(width));
    CastRoundTrip(ShiftAll(start, bytes));
    CastRoundTrip(v);
  }

  lemma SameModulo(r: u64, v: i64, p: nat)
    requires v >= 0 ==> (r - 0 * p - v) % U64 == 0
    requires v < 0 ==> (r - (U64 - 1) * p - (v + p)) % U64 == 0
    ensures r == ToU64(v)
  {
    if v < 0 {
      assert (U64 - 1) * p == U64 * p - p;
      assert r - (U64 - 1) * p - (v + p) == (r - v) - U64 * p;
      var q := ((r - v) - U64 * p) / U64;
      assert r - v == (q + p) * U64;
    }
  }

  // ---------------------------------------------------------------- round trip

  lemma IntegerBounds(n: i64)
    ensures LengthOfTag(SerialType(Integer(n))) == Ok(|Body(Integer(n))|)
    ensures DecodeValue.requires(SerialType(Integer(n)), Body(Integer(n)))
            && DecodeValue(SerialType(Integer(n)), Body(Integer(n))) == Ok(Integer(n))
  {
    var (tag, width) := IntegerType(n);
    assert WidthOfTag(tag) == width;
    if width > 0 {
      assert Pow256(0) == 1 && Pow256(1) == 0x100 && Pow256(2) == 0x1_0000 && Pow256(3) == 0x100_0000;
      assert Pow256(5) == 0x100_0000 * 0x1_0000 && Pow256(7) == 0x100_0000 * 0x1_0000 * 0x1_0000;
      IntegerRoundTrip(n, width);
    }
  }

  lemma TagBounds(v: StorageValue)
    requires Holdable(v)
    ensures LengthOfTag(SerialType(v)) == Ok(|Body(v)|)
    ensures DecodeValue.requires(SerialType(v), Body(v)) && DecodeValue(SerialType(v), Body(v)) == Ok(v)
  {
    match v
    case Integer(n) => IntegerBounds(n);
    case Real(bits) => RealBounds(bits);
    case _ =>
  }

  lemma RealBounds(bits: u64)
    ensures DecodeValue(7, BigEndian(bits, 8)) == Ok(Real(bits))
  {
    assert Pow256(8) == U64;
    BigEndianRoundTrip(bits, 8);
    WordFits(BigEndian(bits, 8));
  }

  lemma {:induction false} ValuesAreRead(bytes: seq<byte>, header: nat, headerEnd: nat, body: nat,
                                         values: seq<StorageValue>)
    requires AllHoldable(values) && header <= headerEnd <= |bytes| && body <= |bytes|
    requires bytes[header..headerEnd] == Tags(values) && bytes[body..] == Bodies(values)
    ensures ReadValues(bytes, header, headerEnd, body) == Ok(values)
    decreases |values|
  {
    hide SerialType, Body, Varint, VarintLength, DecodeValue, LengthOfTag, ReadVarint, ReadValues;
    if values == [] {
      NothingToRead(bytes, header, body);
    } else {
      var v, rest := values[0], values[1..];
      var tag := SerialType(v);
      var n, length := VarintLength(tag), |Body(v)|;
      VarintLengthIsMinimal(tag);
      TagBounds(v);
      FrontOf(bytes, header, headerEnd, Varint(tag), Tags(rest));
      BackOf(bytes, body, Body(v), Bodies(rest));
      assert bytes[..headerEnd][header..header + n] == bytes[header..header + n];
      VarintRoundTrip(bytes[..headerEnd], header, tag);
      ValuesAreRead(bytes, header + n, headerEnd, body + length, rest);
      NextValue(bytes, header, headerEnd, body, v, rest, n);
      assert [v] + rest == values;
    }
  }

  lemma NothingToRead(bytes: seq<byte>, header: nat, body: nat)
    requires header <= |bytes|
    ensures ReadValues(bytes, header, header, body) == Ok([])
  {
  }

  /** The first value, and the others behind it. */
  lemma NextValue(bytes: seq<byte>, header: nat, headerEnd: nat, body: nat, v: StorageValue, rest: seq<StorageValue>,
                  n: nat)
    requires Holdable(v) && header < header + n <= headerEnd <= |bytes| && body + |Body(v)| <= |bytes|
    requires ReadVarint(bytes[..headerEnd], header) == Ok((SerialType(v), header + n))
    requires bytes[body..body + |Body(v)|] == Body(v)
    requires ReadValues(bytes, header + n, headerEnd, body + |Body(v)|) == Ok(rest)
    ensures ReadValues(bytes, header, headerEnd, body) == Ok([v] + rest)
  {
    hide SerialType, Body, DecodeValue, LengthOfTag, ReadVarint;
    TagBounds(v);
  }

  lemma FrontOf(bytes: seq<byte>, from: nat, to: nat, a: seq<byte>, b: seq<byte>)
    requires from <= to <= |bytes| && bytes[from..to] == a + b
    ensures from + |a| <= to && bytes[from..from + |a|] == a && bytes[from + |a|..to] == b
  {
    assert bytes[from..to][..|a|] == bytes[from..from + |a|];
    assert bytes[from..to][|a|..] == bytes[from + |a|..to];
  }

  lemma BackOf(bytes: seq<byte>, from: nat, a: seq<byte>, b: seq<byte>)
    requires from <= |bytes| && bytes[from..] == a + b
    ensures from + |a| <= |bytes| && bytes[from..from + |a|] == a && bytes[from + |a|..] == b
  {
    assert bytes[from..][..|a|] == bytes[from..from + |a|];
    assert bytes[from..][|a|..] == bytes[from + |a|..];
  }

  /** Decoding gives back every list of values. */
  lemma RecordRoundTrip(values: seq<StorageValue>)
    requires AllHoldable(values)
    ensures ReadRecord(Record(values)) == Ok(values)
  {
    hide Tags, Bodies, HeaderSize, Varint, VarintLength, ReadValues;
    TagsAreShort(values);
    var bytes, header := Record(values), HeaderSize(|Tags(values)|);
    var n := VarintLength(header);
    assert bytes == Varint(header) + (Tags(values) + Bodies(values));
    FrontOf(bytes, 0, |bytes|, Varint(header), Tags(values) + Bodies(values));
    assert bytes[..|bytes|] == bytes[0..|bytes|];
    VarintLengthIsMinimal(header);
    VarintRoundTrip(bytes, 0, header);
    assert bytes[n..] == Tags(values) + Bodies(values);
    FrontOf(bytes, n, |bytes|, Tags(values), Bodies(values));
    assert bytes[header..] == bytes[n + |Tags(values)|..|bytes|];
    ValuesAreRead(bytes, n, header, header, values);
  }

  // ---------------------------------------------------------------- the general encoder

  lemma {:induction false} TagsSnoc(values: seq<StorageValue>, v: StorageValue)
    requires AllHoldable(values + [v])
    ensures AllHoldable(values) && Holdable(v)
    ensures Tags(values + [v]) == Tags(values) + Varint(SerialType(v))
    ensures Bodies(values + [v]) == Bodies(values) + Body(v)
  {
    hide Varint, Body, SerialType;
    var longer := values + [v];
    assert longer[|values|] == v && forall i | 0 <= i < |values| :: longer[i] == values[i];
    if values == [] {
      assert longer[1..] == [] && longer[0] == v;
    } else {
      assert longer[1..] == values[1..] + [v];
      TagsSnoc(values[1..], v);
      assert Tags(longer) == Varint(SerialType(longer[0])) + Tags(longer[1..]);
      assert Bodies(longer) == Body(longer[0]) + Bodies(longer[1..]);
      Regrouped(Varint(SerialType(values[0])), Tags(values[1..]), Varint(SerialType(v)));
      Regrouped(Body(values[0]), Bodies(values[1..]), Body(v));
    }
  }

  lemma Regrouped(a: seq<byte>, b: seq<byte>, c: seq<byte>)
    ensures a + (b + c) == (a + b) + c
  {
  }

  lemma PrefixHolds(values: seq<StorageValue>, i: nat)
    requires AllHoldable(values) && i < |values|
    ensures AllHoldable(values[..i]) && AllHoldable(values[..i + 1]) && Holdable(values[i])
    ensures Tags(values[..i + 1]) == Tags(values[..i]) + Varint(SerialType(values[i]))
    ensures Bodies(values[..i + 1]) == Bodies(values[..i]) + Body(values[i])
  {
    assert values[..i + 1] == values[..i] + [values[i]];
    TagsSnoc(values[..i], values[i]);
  }

  /** `encode_record_with_types`: the serial types are computed once and used for sizing, for the
      header and for the integer widths. */
  method EncodeRecord(values: seq<StorageValue>) returns (out: seq<byte>)
    requires AllHoldable(values)
    ensures out == Record(values)
  {
    hide Varint, VarintLength, Body, SerialType, Tags, Bodies, HeaderFrom;
    var types: seq<u64> := [];
    var serialBytes: nat := 0;
    NoValues();
    for i := 0 to |values|
      invariant |types| == i && AllHoldable(values[..i]) && serialBytes == |Tags(values[..i])|
      invariant forall k | 0 <= k < i :: Holdable(values[k]) && types[k] == SerialType(values[k])
    {
      PrefixHolds(values, i);
      LengthOfVarint(SerialType(values[i]));
      types := types + [SerialType(values[i])];
      serialBytes := serialBytes + VarintLength(types[i]);
    }
    assert values[..|values|] == values;
    TagsAreShort(values);
    var headerSize := FindHeaderSize(serialBytes);
    out := AppendVarint([], headerSize);
    ghost var header := Varint(headerSize);
    assert [] + header == header && header + [] == header;
    for i := 0 to |values|
      invariant AllHoldable(values[..i]) && out == header + Tags(values[..i])
    {
      PrefixHolds(values, i);
      out := AppendVarint(out, types[i]);
      assert header + Tags(values[..i]) + Varint(types[i]) == header + (Tags(values[..i]) + Varint(types[i]));
    }
    ghost var front := out;
    assert front + [] == front;
    for i := 0 to |values|
      invariant AllHoldable(values[..i]) && out == front + Bodies(values[..i])
    {
      PrefixHolds(values, i);
      var body := EncodeBody(values[i], types[i]);
      assert front + Bodies(values[..i]) + body == front + (Bodies(values[..i]) + body);
      out := out + body;
    }
  }

  lemma NoValues()
    ensures AllHoldable([]) && Tags([]) == [] && Bodies([]) == []
  {
  }

  lemma LengthOfVarint(value: u64)
    ensures |Varint(value)| == VarintLength(value)
  {
  }

  /** The bytes of one value; the width of an integer follows from its serial type. */
  method EncodeBody(v: StorageValue, tag: u64) returns (body: seq<byte>)
    requires Holdable(v) && tag == SerialType(v)
    ensures body == Body(v)
  {
    match v
    case Null => body := [];
    case Integer(n) => body := IntegerBytes(n, WidthOfTag(tag));
    case Real(bits) => body := BigEndian(bits, 8);
    case Text(utf8) => body := utf8;
    case Blob(bytes) => body := bytes;
  }

  /** Grows the header length until it counts itself. */
  method FindHeaderSize(serialBytes: nat) returns (headerSize: nat)
    requires serialBytes + 9 < U64
    ensures headerSize == HeaderSize(serialBytes) < U64
  {
    headerSize := serialBytes + 1;
    VarintLengthIsMinimal(headerSize);
    FixedPoint(serialBytes);
    while true
      invariant serialBytes + 1 <= headerSize <= serialBytes + 9 && headerSize <= serialBytes + VarintLength(headerSize)
      invariant HeaderFrom(serialBytes, headerSize) == HeaderSize(serialBytes)
      decreases serialBytes + 9 - headerSize
    {
      VarintLengthIsMinimal(headerSize);
      var next := serialBytes + VarintLength(headerSize);
      if next == headerSize {
        break;
      }
      VarintLengthGrows(headerSize, next);
      headerSize := next;
    }
  }

  lemma FixedPoint(tagBytes: nat)
    requires tagBytes + 9 < U64
    ensures tagBytes + 1 <= tagBytes + VarintLength(tagBytes + 1)
    ensures HeaderFrom(tagBytes, tagBytes + 1) == HeaderSize(tagBytes)
  {
    VarintLengthIsMinimal(tagBytes + 1);
  }

  // ---------------------------------------------------------------- specialised encoders

  lemma SmallVarint(value: u64)
    requires value < 128
    ensures VarintLength(value) == 1 && Varint(value) == [value]
  {
    assert Pow2(7) == 128;
    BitLengthBound(value, 7);
    assert Groups(value, 1, false) == Groups(value / 128, 0, true) + [value % 128];
  }

  lemma SmallHeader(tagBytes: nat)
    requires tagBytes < 127
    ensures HeaderSize(tagBytes) == tagBytes + 1
  {
    SmallVarint(tagBytes + 1);
    VarintLengthIsMinimal(HeaderSize(tagBytes));
  }

  /** The bytes of an integer field. */
  function PayloadOf(n: i64): seq<byte> {
    IntegerBytes(n, IntegerType(n).1)
  }

  lemma TagOfInteger(n: i64)
    ensures SerialType(Integer(n)) < 128 && Varint(SerialType(Integer(n))) == [SerialType(Integer(n))]
    ensures SerialType(Integer(n)) == IntegerType(n).0 && Body(Integer(n)) == PayloadOf(n)
    ensures SerialType(Null) == 0 && Varint(0) == [0]
  {
    SmallVarint(IntegerType(n).0);
    SmallVarint(0);
  }

  lemma OneMore(v: StorageValue, rest: seq<StorageValue>)
    requires AllHoldable([v] + rest)
    ensures AllHoldable(rest) && Holdable(v)
    ensures Tags([v] + rest) == Varint(SerialType(v)) + Tags(rest) && Bodies([v] + rest) == Body(v) + Bodies(rest)
  {
    assert ([v] + rest)[0] == v;
    assert ([v] + rest)[1..] == rest;
    assert forall i | 0 <= i < |rest| :: ([v] + rest)[i + 1] == rest[i];
  }

  /** Integer fields: one tag byte each. */
  lemma OneMoreInteger(n: i64, rest: seq<StorageValue>)
    requires AllHoldable([Integer(n)] + rest)
    ensures AllHoldable(rest)
    ensures Tags([Integer(n)] + rest) == [IntegerType(n).0] + Tags(rest)
    ensures Bodies([Integer(n)] + rest) == PayloadOf(n) + Bodies(rest)
  {
    hide Tags, Bodies, IntegerType, PayloadOf, Varint, SerialType, Body;
    OneMore(Integer(n), rest);
    TagOfInteger(n);
  }

  /** The first field is NULL, with no bytes. */
  lemma OneMoreNull(rest: seq<StorageValue>)
    requires AllHoldable([Null] + rest)
    ensures AllHoldable(rest) && Tags([Null] + rest) == [0] + Tags(rest) && Bodies([Null] + rest) == Bodies(rest)
  {
    hide Tags, Bodies;
    OneMore(Null, rest);
    TagOfInteger(0);
    assert Body(Null) + Bodies(rest) == Bodies(rest);
  }

  lemma SmallRecord(values: seq<StorageValue>, tags: seq<byte>, bodies: seq<byte>)
    requires AllHoldable(values) && Tags(values) == tags && Bodies(values) == bodies && |tags| < 127
    ensures Record(values) == [|tags| + 1] + tags + bodies
  {
    hide Tags, Bodies, HeaderSize, Varint, VarintLength;
    TagsAreShort(values);
    SmallHeader(|tags|);
    SmallVarint(|tags| + 1);
  }

  /** A node row: NULL for the rowid alias, then the label group. */
  method EncodeNodeRecord(labelGroup: i64) returns (out: seq<byte>)
    ensures out == Record([Null, Integer(labelGroup)])
  {
    hide IntegerBytes, IntegerType, Tags, Bodies, Record;
    var (tag, width) := IntegerType(labelGroup);
    TypeFits(labelGroup);
    out := [3, 0, tag] + IntegerBytes(labelGroup, width);
    NodeRecordIs(labelGroup);
  }

  lemma TypeFits(n: i64)
    ensures IntegerType(n).0 < 128 && IntegerType(n).1 <= 8
  {
  }

  lemma NodeRecordIs(n: i64)
    ensures AllHoldable([Null, Integer(n)])
    ensures Record([Null, Integer(n)]) == [3, 0, IntegerType(n).0] + PayloadOf(n)
  {
    hide PayloadOf, IntegerType, Tags, Bodies, Record;
    NoValues();
    assert [Integer(n)] + [] == [Integer(n)] && [Null] + [Integer(n)] == [Null, Integer(n)];
    OneMoreInteger(n, []);
    OneMoreNull([Integer(n)]);
    TypeFits(n);
    SmallRecord([Null, Integer(n)], [0, IntegerType(n).0], PayloadOf(n));
  }

  /** An edge row: NULL for the rowid alias, then source, target and type. */
  method EncodeEdgeRecord(source: i64, target: i64, kind: i64) returns (out: seq<byte>)
    ensures out == Record([Null, Integer(source), Integer(target), Integer(kind)])
  {
    hide IntegerBytes, IntegerType, Tags, Bodies, Record;
    var (fromTag, fromWidth) := IntegerType(source);
    var (toTag, toWidth) := IntegerType(target);
    var (kindTag, kindWidth) := IntegerType(kind);
    TypeFits(source);
    TypeFits(target);
    TypeFits(kind);
    out := [5, 0, fromTag, toTag, kindTag];
    out := out + IntegerBytes(source, fromWidth);
    out := out + IntegerBytes(target, toWidth);
    out := out + IntegerBytes(kind, kindWidth);
    EdgeRecordIs(source, target, kind);
  }

  lemma EdgeRecordIs(a: i64, b: i64, c: i64)
    ensures AllHoldable([Null, Integer(a), Integer(b), Integer(c)])
    ensures Record([Null, Integer(a), Integer(b), Integer(c)])
         == [5, 0, IntegerType(a).0, IntegerType(b).0, IntegerType(c).0]
            + PayloadOf(a) + PayloadOf(b) + PayloadOf(c)
  {
    hide PayloadOf, IntegerType, Tags, Bodies, Record;
    var x, y, z := PayloadOf(a), PayloadOf(b), PayloadOf(c);
    NoValues();
    assert [Integer(c)] + [] == [Integer(c)] && [Integer(b)] + [Integer(c)] == [Integer(b), Integer(c)];
    assert [Integer(a)] + [Integer(b), Integer(c)] == [Integer(a), Integer(b), Integer(c)];
    assert [Null] + [Integer(a), Integer(b), Integer(c)] == [Null, Integer(a), Integer(b), Integer(c)];
    OneMoreInteger(c, []);
    OneMoreInteger(b, [Integer(c)]);
    OneMoreInteger(a, [Integer(b), Integer(c)]);
    OneMoreNull([Integer(a), Integer(b), Integer(c)]);
    TypeFits(a);
    TypeFits(b);
    TypeFits(c);
    var tags: seq<byte> := [0, IntegerType(a).0, IntegerType(b).0, IntegerType(c).0];
    SmallRecord([Null, Integer(a), Integer(b), Integer(c)], tags, x + (y + (z + [])));
    assert [5] + tags + (x + (y + (z + []))) == [5 as byte] + tags + x + y + z;
  }

  /** A property row: owner, key and any value; the header still needs one length byte. */
  method EncodePropertyRecord(owner: i64, key: i64, value: StorageValue) returns (out: seq<byte>)
    requires Holdable(value)
    ensures out == Record([Integer(owner), Integer(key), value])
  {
    hide IntegerBytes, IntegerType, Tags, Bodies, Record, SerialType, Varint, VarintLength, Body;
    var (ownerTag, ownerWidth) := IntegerType(owner);
    var (keyTag, keyWidth) := IntegerType(key);
    TypeFits(owner);
    TypeFits(key);
    var valueTag := SerialType(value);
    var headerSize := 3 + VarintLength(valueTag);
    VarintLengthIsMinimal(valueTag);
    out := AppendVarint([headerSize, ownerTag, keyTag], valueTag);
    out := out + IntegerBytes(owner, ownerWidth);
    out := out + IntegerBytes(key, keyWidth);
    var body := EncodeBody(value, valueTag);
    out := out + body;
    PropertyRecordIs(owner, key, value);
  }

  lemma PropertyRecordIs(a: i64, b: i64, v: StorageValue)
    requires Holdable(v)
    ensures AllHoldable([Integer(a), Integer(b), v]) && VarintLength(SerialType(v)) <= 9
    ensures Record([Integer(a), Integer(b), v])
         == [3 + VarintLength(SerialType(v)), IntegerType(a).0, IntegerType(b).0] + Varint(SerialType(v))
            + PayloadOf(a) + PayloadOf(b) + Body(v)
  {
    hide PayloadOf, IntegerType, Tags, Bodies, Record, SerialType, Varint, VarintLength, Body;
    var x, y, z, t := PayloadOf(a), PayloadOf(b), Body(v), Varint(SerialType(v));
    NoValues();
    LengthOfVarint(SerialType(v));
    VarintLengthIsMinimal(SerialType(v));
    assert [v] + [] == [v] && [Integer(b)] + [v] == [Integer(b), v]
           && [Integer(a)] + [Integer(b), v] == [Integer(a), Integer(b), v];
    OneMore(v, []);
    OneMoreInteger(b, [v]);
    OneMoreInteger(a, [Integer(b), v]);
    TypeFits(a);
    TypeFits(b);
    var tags: seq<byte> := [IntegerType(a).0] + ([IntegerType(b).0] + (t + []));
    SmallRecord([Integer(a), Integer(b), v], tags, x + (y + (z + [])));
    var h := [(3 + VarintLength(SerialType(v))) as byte];
    assert h + tags + (x + (y + (z + []))) == (h + [IntegerType(a).0, IntegerType(b).0]) + t + x + y + z;
    assert h + [IntegerType(a).0, IntegerType(b).0] == [3 + VarintLength(SerialType(v)), IntegerType(a).0,
                                                        IntegerType(b).0];
  }

  function Integers(values: seq<i64>): (r: seq<StorageValue>)
    ensures |r| == |values|
  {
    seq(|values|, i requires 0 <= i < |values| => Integer(values[i]))
  }

  /** The serial types of integers, one byte each. */
  function IntegerTags(values: seq<i64>): (tags: seq<byte>)
    ensures |tags| == |values|
  {
    seq(|values|, i requires 0 <= i < |values| => IntegerType(values[i]).0)
  }

  lemma {:induction false} TagsOfIntegers(values: seq<i64>)
    requires |values| < U32
    ensures Tags(Integers(values)) == IntegerTags(values)
  {
    hide Varint, SerialType, IntegerType;
    if values != [] {
      TagOfInteger(values[0]);
      TagsOfIntegers(values[1..]);
      assert Integers(values)[1..] == Integers(values[1..]);
      assert IntegerTags(values) == [IntegerType(values[0]).0] + IntegerTags(values[1..]);
    }
  }

  /** Copies bytes into place. */
  method CopyInto(record: array<byte>, offset: nat, bytes: seq<byte>)
    requires offset + |bytes| <= record.Length
    modifies record
    ensures record[..] == old(record[..offset]) + bytes + old(record[offset + |bytes|..])
  {
    for i := 0 to |bytes|
      invariant record[..] == old(record[..offset]) + bytes[..i] + old(record[offset + i..])
    {
      record[offset + i] := bytes[i];
    }
  }

  /** Tags, widths and the size of an all-integer record. */
  method SizeIntegers(values: seq<i64>) returns (tags: seq<byte>, widths: seq<nat>, size: nat)
    requires |values| <= 8
    ensures tags == IntegerTags(values) && |widths| == |values|
    ensures forall i | 0 <= i < |values| :: widths[i] == IntegerType(values[i]).1
    ensures AllHoldable(Integers(values)) && size == |values| + 1 + |Bodies(Integers(values))|
  {
    hide PayloadOf, IntegerType, Bodies, IntegerTags, Integers;
    tags, widths, size := [], [], |values| + 1;
    NoIntegers();
    assert values[..0] == [];
    for column := 0 to |values|
      invariant tags == IntegerTags(values[..column]) && |widths| == column
      invariant forall i | 0 <= i < column :: widths[i] == IntegerType(values[i]).1
      invariant AllHoldable(Integers(values[..column])) && size == |values| + 1 + |Bodies(Integers(values[..column]))|
    {
      var (tag, width) := IntegerType(values[column]);
      TypeFits(values[column]);
      IntegerSnoc(values, column);
      tags := tags + [tag];
      widths := widths + [width];
      size := size + width;
    }
    assert values[..|values|] == values;
  }

  lemma NoIntegers()
    ensures Integers([]) == [] && IntegerTags([]) == [] && AllHoldable([]) && Bodies([]) == []
  {
  }

  /** The encoder for all-integer index records: sizes, tags and payloads at known places. */
  method EncodeIntegerRecord(values: seq<i64>) returns (record: array<byte>)
    requires |values| <= 8
    ensures fresh(record) && record[..] == Record(Integers(values))
  {
    hide IntegerBytes, IntegerType, Bodies, IntegerTags, Integers, Record;
    var tags, widths, size := SizeIntegers(values);
    record := new byte[size](_ => 0);
    record[0] := |values| + 1;
    CopyInto(record, 1, tags);
    var offset := |values| + 1;
    ghost var header := [(|values| + 1) as byte] + tags;
    assert record[..offset] == header;
    NoIntegers();
    assert values[..0] == [] && header + [] == header;
    for column := 0 to |values|
      invariant AllHoldable(Integers(values[..column])) && offset == |header| + |Bodies(Integers(values[..column]))|
                <= record.Length
      invariant record[..offset] == header + Bodies(Integers(values[..column]))
    {
      TypeFits(values[column]);
      BodiesGrow(values, column + 1);
      OneBodyMore(header, values, column);
      var width := widths[column];
      ghost var before := record[..offset];
      var payload := IntegerBytes(values[column], width);
      CopyInto(record, offset, payload);
      Copied(before, payload, record[..], offset);
      offset := offset + width;
    }
    assert values[..|values|] == values && record[..] == record[..offset];
    IntegerRecordIs(values);
  }

  lemma OneBodyMore(header: seq<byte>, values: seq<i64>, i: nat)
    requires i < |values| <= 8
    ensures AllHoldable(Integers(values[..i])) && AllHoldable(Integers(values[..i + 1]))
    ensures header + Bodies(Integers(values[..i])) + PayloadOf(values[i]) == header + Bodies(Integers(values[..i + 1]))
    ensures |Bodies(Integers(values[..i + 1]))| == |Bodies(Integers(values[..i]))| + IntegerType(values[i]).1
  {
    hide Bodies, PayloadOf, IntegerType, Integers, AllHoldable;
    IntegerSnoc(values, i);
  }

  lemma Copied(before: seq<byte>, payload: seq<byte>, after: seq<byte>, offset: nat)
    requires |before| == offset && offset + |payload| <= |after| && before + payload <= after
    ensures after[..offset + |payload|] == before + payload
  {
  }

  lemma IntegerSnoc(values: seq<i64>, i: nat)
    requires i < |values| <= 8
    ensures AllHoldable(Integers(values[..i])) && AllHoldable(Integers(values[..i + 1]))
    ensures IntegerTags(values[..i + 1]) == IntegerTags(values[..i]) + [IntegerType(values[i]).0]
    ensures Bodies(Integers(values[..i + 1])) == Bodies(Integers(values[..i])) + PayloadOf(values[i])
    ensures |PayloadOf(values[i])| == IntegerType(values[i]).1
  {
    hide Tags, Bodies, Body, Varint;
    assert Integers(values[..i + 1]) == Integers(values[..i]) + [Integer(values[i])];
    TagsSnoc(Integers(values[..i]), Integer(values[i]));
    TagOfInteger(values[i]);
  }

  lemma {:induction false} BodiesGrow(values: seq<i64>, i: nat)
    requires i <= |values| <= 8
    ensures AllHoldable(Integers(values)) && AllHoldable(Integers(values[..i]))
    ensures |Bodies(Integers(values[..i]))| <= |Bodies(Integers(values))|
    decreases |values| - i
  {
    hide Bodies, IntegerBytes, IntegerType;
    if i < |values| {
      IntegerSnoc(values, i);
      BodiesGrow(values, i + 1);
    } else {
      assert values[..i] == values;
    }
  }

  lemma IntegerRecordIs(values: seq<i64>)
    requires |values| <= 8
    ensures AllHoldable(Integers(values))
    ensures Record(Integers(values)) == [|values| + 1] + IntegerTags(values) + Bodies(Integers(values))
  {
    hide Tags, Bodies, HeaderSize, Varint, VarintLength, IntegerTags;
    TagsOfIntegers(values);
    SmallHeader(|values|);
    SmallVarint(|values| + 1);
  }
}
