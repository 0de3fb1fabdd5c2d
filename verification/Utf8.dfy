/** Well-formed UTF-8: RFC 3629, section 4. */
module Utf8 {
  import opened Bytes

  predicate Tail(b: byte) {
    0x80 <= b <= 0xBF
  }

  /** Bytes of the character the sequence starts with; 0 when it starts with none. */
  function CharLength(s: seq<byte>): (n: nat)
    ensures n <= |s| && n <= 4
  {
    if s == [] then 0
    else if s[0] <= 0x7F then 1
    else if 0xC2 <= s[0] <= 0xDF then if |s| >= 2 && Tail(s[1]) then 2 else 0
    else if 0xE0 <= s[0] <= 0xEF then
      if |s| >= 3 && Tail(s[1]) && Tail(s[2]) && (s[0] == 0xE0 ==> s[1] >= 0xA0)
          && (s[0] == 0xED ==> s[1] <= 0x9F) then 3 else 0
    else if 0xF0 <= s[0] <= 0xF4 then
      if |s| >= 4 && Tail(s[1]) && Tail(s[2]) && Tail(s[3]) && (s[0] == 0xF0 ==> s[1] >= 0x90)
          && (s[0] == 0xF4 ==> s[1] <= 0x8F) then 4 else 0
    else 0
  }

  predicate ValidUtf8(s: seq<byte>) {
    s == [] || (CharLength(s) > 0 && ValidUtf8(s[CharLength(s)..]))
  }

  /** Appending valid text to valid text gives valid text. */
  lemma {:induction false} ValidConcat(a: seq<byte>, b: seq<byte>)
    requires ValidUtf8(a)
    ensures ValidUtf8(a + b) <==> ValidUtf8(b)
    decreases |a|
  {
    if a == [] {
      assert a + b == b;
    } else {
      var n := CharLength(a);
      assert CharLength(a + b) == n;
      assert (a + b)[n..] == a[n..] + b;
      ValidConcat(a[n..], b);
    }
  }

  // ---------------------------------------------------------------- text

  /** A Unicode scalar value: a code point that is no surrogate. */
  type scalar = c: nat | c < 0xD800 || 0xE000 <= c < 0x11_0000

  /** The bytes of one character: section 3. */
  function CharBytes(c: scalar): (s: seq<byte>)
    ensures 1 <= |s| <= 4
  {
    if c < 0x80 then [c]
    else if c < 0x800 then [0xC0 + c / 0x40, 0x80 + c % 0x40]
    else if c < 0x1_0000 then [0xE0 + c / 0x1000, 0x80 + c / 0x40 % 0x40, 0x80 + c % 0x40]
    else [0xF0 + c / 0x4_0000, 0x80 + c / 0x1000 % 0x40, 0x80 + c / 0x40 % 0x40, 0x80 + c % 0x40]
  }

  function TextBytes(text: seq<scalar>): seq<byte> {
    if text == [] then [] else CharBytes(text[0]) + TextBytes(text[1..])
  }

  lemma CharIsTaken(c: scalar, rest: seq<byte>)
    ensures CharLength(CharBytes(c) + rest) == |CharBytes(c)|
  {
    var bytes := CharBytes(c);
    StartDecides(bytes, bytes + rest);
    assert CharLength(bytes) == |bytes|;
  }

  /** A whole character is one whatever follows. */
  lemma StartDecides(bytes: seq<byte>, s: seq<byte>)
    requires bytes <= s && CharLength(bytes) == |bytes| > 0
    ensures CharLength(s) == |bytes|
  {
  }

  function TwoByteChar(a: nat, b: nat): (c: scalar)
    requires 2 <= a < 0x20 && b < 0x40
    ensures CharBytes(c) == [0xC0 + a, 0x80 + b]
  {
    a * 0x40 + b
  }

  function ThreeByteChar(a: nat, b: nat, d: nat): (c: scalar)
    requires a < 0x10 && b < 0x40 && d < 0x40 && (a == 0 ==> b >= 0x20) && (a == 0xD ==> b < 0x20)
    ensures CharBytes(c) == [0xE0 + a, 0x80 + b, 0x80 + d]
  {
    ThreeDigits(a, b, d);
    (a * 0x40 + b) * 0x40 + d
  }

  lemma ThreeDigits(a: nat, b: nat, d: nat)
    requires b < 0x40 && d < 0x40
    ensures var c := (a * 0x40 + b) * 0x40 + d;
            c / 0x1000 == a && c / 0x40 % 0x40 == b && c % 0x40 == d && c / 0x40 == a * 0x40 + b
  {
  }

  function FourByteChar(a: nat, b: nat, d: nat, e: nat): (c: scalar)
    requires a < 5 && b < 0x40 && d < 0x40 && e < 0x40 && (a == 0 ==> b >= 0x10) && (a == 4 ==> b < 0x10)
    ensures CharBytes(c) == [0xF0 + a, 0x80 + b, 0x80 + d, 0x80 + e]
  {
    var high := (a * 0x40 + b) * 0x40 + d;
    ThreeDigits(a, b, d);
    FourDigits(high, e);
    high * 0x40 + e
  }

  lemma FourDigits(high: nat, e: nat)
    requires e < 0x40
    ensures var c := high * 0x40 + e;
            c % 0x40 == e && c / 0x40 == high && c / 0x1000 == high / 0x40 && c / 0x4_0000 == high / 0x1000
  {
  }

  function CharOf(s: seq<byte>): (c: scalar)
    requires CharLength(s) > 0
    ensures CharBytes(c) == s[..CharLength(s)]
  {
    hide CharBytes;
    match CharLength(s)
    case 1 => (OneByteChar(s[0]); s[0])
    case 2 => TwoByteChar(s[0] - 0xC0, s[1] - 0x80)
    case 3 => ThreeByteChar(s[0] - 0xE0, s[1] - 0x80, s[2] - 0x80)
    case _ => FourByteChar(s[0] - 0xF0, s[1] - 0x80, s[2] - 0x80, s[3] - 0x80)
  }

  lemma OneByteChar(b: byte)
    requires b < 0x80
    ensures CharBytes(b) == [b]
  {
  }

  lemma {:induction false} ValidIsText(s: seq<byte>) returns (text: seq<scalar>)
    requires ValidUtf8(s)
    ensures TextBytes(text) == s
    decreases |s|
  {
    hide CharLength, CharBytes, CharOf;
    if s == [] {
      text := [];
    } else {
      var n := CharLength(s);
      var more := ValidIsText(s[n..]);
      text := [CharOf(s)] + more;
      assert text[1..] == more;
      assert s == s[..n] + s[n..];
    }
  }

  lemma {:induction false} TextIsValid(text: seq<scalar>)
    ensures ValidUtf8(TextBytes(text))
  {
    hide CharLength, CharBytes;
    if text != [] {
      var first, more := CharBytes(text[0]), TextBytes(text[1..]);
      TextIsValid(text[1..]);
      CharIsTaken(text[0], more);
      assert (first + more)[|first|..] == more;
    }
  }

  /** Bytes are valid if and only if they are the encoding of some text. */
  lemma ValidMeansText(s: seq<byte>)
    ensures ValidUtf8(s) <==> exists text :: TextBytes(text) == s
  {
    hide ValidUtf8, TextBytes;
    if ValidUtf8(s) {
      var text := ValidIsText(s);
    }
    if text :| TextBytes(text) == s {
      TextIsValid(text);
    }
  }
}
