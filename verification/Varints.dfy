/** SQLite's variable-length integers: one to nine bytes, most significant group first. */
module Varints {
  import opened Bytes
  import opened Powers
  import opened Results

  function VarintLength(value: u64): (n: nat)
  {
    if value >= 0x100_0000_0000_0000 then 9
    else (6 + if value == 0 then 1 else BitLength(value)) / 7
  }

  function Pow128(n: nat): (p: nat)
    ensures p >= 1
  {
    if n == 0 then 1 else 128 * Pow128(n - 1)
  }

  /** `n` seven-bit groups, most significant first; all but the last carry the continuation flag. */
  function Groups(value: nat, n: nat, lastFlag: bool): (b: seq<byte>)
    ensures |b| == n
  {
    if n == 0 then []
    else Groups(value / 128, n - 1, true) + [value % 128 + if lastFlag then 128 else 0]
  }

  function Varint(value: u64): (b: seq<byte>)
    ensures |b| == VarintLength(value)
  {
    if VarintLength(value) == 9 then Groups(value / 256, 8, true) + [value % 256]
    else Groups(value, VarintLength(value), false)
  }

  /** Reads the groups from `offset`; `value` holds the ones read so far. */
  function ReadFrom(bytes: seq<byte>, offset: nat, i: nat, value: nat): (r: Result<(nat, nat)>)
    requires i <= 8
    ensures r.Ok? ==> offset < r.value.1 <= |bytes|
    decreases 9 - i
  {
    if offset >= |bytes| then Err("truncated record varint")
    else if i == 8 then Ok((value * 256 + bytes[offset], offset + 1))
    else if bytes[offset] < 128 then Ok((value * 128 + bytes[offset], offset + 1))
    else ReadFrom(bytes, offset + 1, i + 1, value * 128 + bytes[offset] - 128)
  }

  function ReadVarint(bytes: seq<byte>, offset: nat): (r: Result<(nat, nat)>)
    ensures r.Ok? ==> offset < r.value.1 <= |bytes|
  {
    ReadFrom(bytes, offset, 0, 0)
  }

  // ---------------------------------------------------------------- round trip

  lemma LastGroup(bytes: seq<byte>, offset: nat, value: nat, n: nat, flag: bool)
    requires n > 0 && offset + n <= |bytes| && bytes[offset..offset + n] == Groups(value, n, flag)
    ensures bytes[offset..offset + n - 1] == Groups(value / 128, n - 1, true)
    ensures bytes[offset + n - 1] == value % 128 + if flag then 128 else 0
  {
    assert bytes[offset..offset + n - 1] == bytes[offset..offset + n][..n - 1];
    assert bytes[offset + n - 1] == bytes[offset..offset + n][n - 1];
  }

  lemma Narrower(value: nat, n: nat)
    requires n > 0 && value < Pow128(n)
    ensures value / 128 < Pow128(n - 1) && Pow128(n) == 128 * Pow128(n - 1)
  {
  }

  lemma OneFlagged(bytes: seq<byte>, offset: nat, i: nat, acc: nat, low: nat)
    requires i < 8 && offset < |bytes| && bytes[offset] == low + 128
    ensures ReadFrom(bytes, offset, i, acc) == ReadFrom(bytes, offset + 1, i + 1, acc * 128 + low)
  {
  }

  function Folded(acc: nat, n: nat, value: nat): nat {
    acc * Pow128(n) + value
  }

  lemma NoGroup(acc: nat, value: nat)
    requires value < Pow128(0)
    ensures Folded(acc, 0, value) == acc
  {
  }

  lemma NextGroup(acc: nat, n: nat, value: nat)
    requires n > 0
    ensures Folded(acc, n - 1, value / 128) * 128 + value % 128 == Folded(acc, n, value)
  {
    var p := Pow128(n - 1);
    assert acc * (128 * p) == (acc * p) * 128;
  }

  /** Flagged groups are folded into the value read so far. */
  lemma {:induction false} ReadFlagged(bytes: seq<byte>, offset: nat, i: nat, acc: nat, value: nat, n: nat)
    requires i + n <= 8 && value < Pow128(n)
    requires offset + n <= |bytes| && bytes[offset..offset + n] == Groups(value, n, true)
    ensures ReadFrom(bytes, offset, i, acc) == ReadFrom(bytes, offset + n, i + n, Folded(acc, n, value))
  {
    hide Groups, ReadFrom, Pow128, Folded;
    if n == 0 {
      NoGroup(acc, value);
    } else {
      LastGroup(bytes, offset, value, n, true);
      Narrower(value, n);
      ReadFlagged(bytes, offset, i, acc, value / 128, n - 1);
      OneFlagged(bytes, offset + n - 1, i + n - 1, Folded(acc, n - 1, value / 128), value % 128);
      NextGroup(acc, n, value);
    }
  }

  lemma OneUnflagged(bytes: seq<byte>, offset: nat, i: nat, acc: nat, low: nat)
    requires i < 8 && offset < |bytes| && bytes[offset] == low < 128
    ensures ReadFrom(bytes, offset, i, acc) == Ok((acc * 128 + low, offset + 1))
  {
  }

  lemma ReadUnflagged(bytes: seq<byte>, offset: nat, value: nat, n: nat)
    requires 1 <= n <= 8 && value < Pow128(n)
    requires offset + n <= |bytes| && bytes[offset..offset + n] == Groups(value, n, false)
    ensures ReadVarint(bytes, offset) == Ok((value, offset + n))
  {
    hide Groups, Pow128, ReadFrom, Folded;
    LastGroup(bytes, offset, value, n, false);
    Narrower(value, n);
    ReadFlagged(bytes, offset, 0, 0, value / 128, n - 1);
    NothingBefore(value / 128, n - 1);
    OneUnflagged(bytes, offset + n - 1, n - 1, value / 128, value % 128);
  }

  lemma {:induction false} Pow128IsPow2(n: nat)
    ensures Pow128(n) == Pow2(7 * n)
  {
    if n > 0 {
      Pow128IsPow2(n - 1);
      var k := 7 * (n - 1);
      assert Pow2(k + 7) == 2 * Pow2(k + 6) && Pow2(k + 6) == 2 * Pow2(k + 5) && Pow2(k + 5) == 2 * Pow2(k + 4);
      assert Pow2(k + 4) == 2 * Pow2(k + 3) && Pow2(k + 3) == 2 * Pow2(k + 2) && Pow2(k + 2) == 2 * Pow2(k + 1);
    }
  }

  /** The length is the shortest that can hold the value. */
  lemma VarintLengthIsMinimal(value: u64)
    ensures 1 <= VarintLength(value) <= 9
    ensures VarintLength(value) == 9 <==> value >= Pow128(8)
    ensures VarintLength(value) < 9 ==> value < Pow128(VarintLength(value))
    ensures VarintLength(value) > 1 ==> value >= Pow128(VarintLength(value) - 1)
  {
    assert Pow128(8) == 0x100_0000_0000_0000;
    if 0 < value < 0x100_0000_0000_0000 {
      var bits, len := BitLength(value), VarintLength(value);
      BitLengthIsExact(value);
      Pow128IsPow2(8);
      if bits > 56 {
        Pow2Grows(56, bits - 1);
        assert false;
      }
      Pow128IsPow2(len);
      Pow128IsPow2(len - 1);
      Pow2Grows(bits, 7 * len);
      Pow2Grows(7 * (len - 1), bits - 1);
    } else if value >= 0x100_0000_0000_0000 {
      assert Pow128(8) <= value;
    }
  }

  /** Nine bytes: eight flagged groups and a whole byte. */
  lemma ReadNine(bytes: seq<byte>, offset: nat, value: u64)
    requires offset + 9 <= |bytes| && bytes[offset..offset + 9] == Groups(value / 256, 8, true) + [value % 256]
    requires value / 256 < Pow128(8)
    ensures ReadVarint(bytes, offset) == Ok((value, offset + 9))
  {
    hide Groups, Pow128;
    assert bytes[offset..offset + 8] == bytes[offset..offset + 9][..8];
    assert bytes[offset + 8] == bytes[offset..offset + 9][8];
    ReadFlagged(bytes, offset, 0, 0, value / 256, 8);
    NothingBefore(value / 256, 8);
    assert value / 256 * 256 + value % 256 == value;
    hide ReadFrom;
    WholeByte(bytes, offset + 8, value / 256, value % 256);
  }

  lemma NothingBefore(value: nat, n: nat)
    ensures Folded(0, n, value) == value
  {
  }

  lemma WholeByte(bytes: seq<byte>, offset: nat, acc: nat, low: nat)
    requires offset < |bytes| && bytes[offset] == low
    ensures ReadFrom(bytes, offset, 8, acc) == Ok((acc * 256 + low, offset + 1))
  {
  }

  lemma TopGroups(value: u64)
    ensures value / 256 < Pow128(8)
  {
    assert Pow128(8) == 0x100_0000_0000_0000;
  }

  /** Reading gives back every 64-bit value, whatever surrounds its bytes. */
  lemma VarintRoundTrip(bytes: seq<byte>, offset: nat, value: u64)
    requires offset + VarintLength(value) <= |bytes|
    requires bytes[offset..offset + VarintLength(value)] == Varint(value)
    ensures ReadVarint(bytes, offset) == Ok((value, offset + VarintLength(value)))
  {
    hide Groups, Pow128, ReadVarint, VarintLength;
    VarintLengthIsMinimal(value);
    if VarintLength(value) == 9 {
      TopGroups(value);
      ReadNine(bytes, offset, value);
    } else {
      ReadUnflagged(bytes, offset, value, VarintLength(value));
    }
  }

  /** Seven-bit groups as digits, most significant first. */
  function Weighted(b: seq<byte>): nat {
    if b == [] then 0 else (b[0] % 128) * Pow128(|b| - 1) + Weighted(b[1..])
  }

  lemma {:induction false} WeightedSnoc(b: seq<byte>, last: byte)
    ensures Weighted(b + [last]) == Weighted(b) * 128 + last % 128
  {
    if b == [] {
      assert ([] + [last])[1..] == [];
    } else {
      WeightedSnoc(b[1..], last);
      assert (b + [last])[1..] == b[1..] + [last];
      var p := Pow128(|b| - 1);
      assert (b[0] % 128) * (128 * p) == (b[0] % 128) * p * 128;
    }
  }

  lemma {:induction false} GroupsWeigh(value: nat, n: nat, lastFlag: bool)
    requires value < Pow128(n)
    ensures Weighted(Groups(value, n, lastFlag)) == value
    ensures forall i | 0 <= i < n - 1 :: Groups(value, n, lastFlag)[i] >= 128
    ensures n > 0 ==> (Groups(value, n, lastFlag)[n - 1] >= 128 <==> lastFlag)
  {
    hide Weighted;
    if n > 0 {
      Narrower(value, n);
      GroupsWeigh(value / 128, n - 1, true);
      WeightedSnoc(Groups(value / 128, n - 1, true), value % 128 + if lastFlag then 128 else 0);
    } else {
      NothingWeighs();
    }
  }

  lemma NothingWeighs()
    ensures Weighted([]) == 0
  {
  }

  /** The bytes of a varint: digits of seven bits, most significant first, and in the ninth byte of eight; all but the
      last byte of the shorter forms, and the first eight of the longest, carry the flag. */
  lemma VarintSays(value: u64)
    ensures var b := Varint(value);
            if |b| == 9 then
              && value == Weighted(b[..8]) * 256 + b[8] && forall i | 0 <= i < 8 :: b[i] >= 128
            else
              && value == Weighted(b) && |b| >= 1 && b[|b| - 1] < 128 && forall i | 0 <= i < |b| - 1 :: b[i] >= 128
  {
    hide Groups, Weighted, VarintLength, Pow128;
    VarintLengthIsMinimal(value);
    if VarintLength(value) == 9 {
      TopGroups(value);
      GroupsWeigh(value / 256, 8, true);
      assert Varint(value)[..8] == Groups(value / 256, 8, true);
    } else {
      GroupsWeigh(value, VarintLength(value), false);
    }
  }

  // ---------------------------------------------------------------- the encoder

  /** Fills the groups from the back. */
  method FillGroups(value: nat, n: nat, lastFlag: bool) returns (out: seq<byte>)
    ensures out == Groups(value, n, lastFlag)
  {
    out := Zeros(n);
    var rest := value;
    for i := n downto 0
      invariant |out| == n
      invariant Groups(value, n, lastFlag) == Groups(rest, i, if i == n then lastFlag else true) + out[i..]
    {
      out := out[i := rest % 128 + if i + 1 < n || lastFlag then 128 else 0];
      rest := rest / 128;
      assert out[i..] == [out[i]] + out[i + 1..];
    }
  }

  /** Appends the encoding of `value`. */
  method AppendVarint(out: seq<byte>, value: u64) returns (r: seq<byte>)
    ensures r == out + Varint(value)
  {
    var len := VarintLength(value);
    if len == 9 {
      var groups := FillGroups(value / 256, 8, true);
      r := out + groups + [value % 256];
    } else {
      var groups := FillGroups(value, len, false);
      r := out + groups;
    }
  }
}
