/** The CSV printer of query results (`runtime/table.rs`), and reading its output back.  Strings are
    their UTF-8 bytes. */
module CsvPrinting {
  import opened Bytes
  import opened CsvFormat
  import opened Results
  import opened Utf8

  const COMMA: byte := 44
  const QUOTE: byte := 34

  predicate Special(b: byte) {
    b == COMMA || b == QUOTE || b == LF || b == CR
  }

  predicate NeedsQuotes(s: seq<byte>) {
    exists i :: 0 <= i < |s| && Special(s[i])
  }

  /** Every quote twice. */
  function Doubled(s: seq<byte>): seq<byte> {
    if s == [] then [] else (if s[0] == QUOTE then [QUOTE, QUOTE] else [s[0]]) + Doubled(s[1..])
  }

  function Escaped(s: seq<byte>): seq<byte> {
    if NeedsQuotes(s) then [QUOTE] + Doubled(s) + [QUOTE] else s
  }

  /** A printed row without its line end. */
  function RowBody(fields: seq<seq<byte>>): seq<byte> {
    if fields == [] then []
    else if |fields| == 1 then Escaped(fields[0])
    else Escaped(fields[0]) + ([COMMA] + RowBody(fields[1..]))
  }

  function Row(fields: seq<seq<byte>>): seq<byte> {
    RowBody(fields) + [LF]
  }

  // ---------------------------------------------------------------- the printer

  lemma {:induction false} DoubledSnoc(s: seq<byte>, b: byte)
    ensures Doubled(s + [b]) == Doubled(s) + if b == QUOTE then [QUOTE, QUOTE] else [b]
  {
    if s == [] {
      assert [b][1..] == [];
    } else {
      DoubledSnoc(s[1..], b);
      assert (s + [b])[1..] == s[1..] + [b] && (s + [b])[0] == s[0];
      var first, last := if s[0] == QUOTE then [QUOTE, QUOTE] else [s[0]], if b == QUOTE then [QUOTE, QUOTE] else [b];
      assert first + (Doubled(s[1..]) + last) == (first + Doubled(s[1..])) + last;
    }
  }

  lemma NothingSpecial(s: seq<byte>)
    requires !NeedsQuotes(s)
    ensures 44 !in s && 34 !in s && 10 !in s && 13 !in s
  {
  }

  /** A field of other bytes than comma, quote, line feed and carriage return is printed as it is; any other stands
      between quotes. */
  method CsvEscape(s: seq<byte>) returns (out: seq<byte>)
    ensures out == Escaped(s)
    ensures 44 !in s && 34 !in s && 10 !in s && 13 !in s ==> out == s
    ensures 44 in s || 34 in s || 10 in s || 13 in s ==> |out| >= |s| + 2 && out[0] == 34 && out[|out| - 1] == 34
  {
    if !NeedsQuotes(s) {
      NothingSpecial(s);
      return s;
    }
    out := [QUOTE];
    for i := 0 to |s|
      invariant out == [QUOTE] + Doubled(s[..i]) && |out| >= i + 1
    {
      DoubledSnoc(s[..i], s[i]);
      assert s[..i + 1] == s[..i] + [s[i]];
      if s[i] == QUOTE {
        out := out + [QUOTE];
      }
      out := out + [s[i]];
    }
    assert s[..|s|] == s;
    out := out + [QUOTE];
  }

  lemma {:induction false} RowSnoc(fields: seq<seq<byte>>, field: seq<byte>)
    requires fields != []
    ensures RowBody(fields + [field]) == RowBody(fields) + [COMMA] + Escaped(field)
  {
    hide Escaped;
    assert (fields + [field])[1..] == fields[1..] + [field] && (fields + [field])[0] == fields[0];
    if |fields| == 1 {
      assert fields[1..] == [];
      assert RowBody([field]) == Escaped(field);
    } else {
      RowSnoc(fields[1..], field);
    }
  }

  /** `write_csv_row`: appends one row. */
  method WriteCsvRow(out: seq<byte>, fields: seq<seq<byte>>) returns (out': seq<byte>)
    ensures out' == out + Row(fields)
  {
    hide Escaped;
    out' := out;
    var first := true;
    for i := 0 to |fields|
      invariant first <==> i == 0
      invariant out' == out + RowBody(fields[..i])
    {
      if !first {
        out' := out' + [COMMA];
        RowSnoc(fields[..i], fields[i]);
      } else {
        assert RowBody([fields[i]]) == Escaped(fields[i]);
      }
      assert fields[..i + 1] == fields[..i] + [fields[i]];
      first := false;
      var escaped := CsvEscape(fields[i]);
      out' := out' + escaped;
    }
    assert fields[..|fields|] == fields;
    out' := out' + [LF];
  }

  // ---------------------------------------------------------------- reading one field

  /** The options under which printed rows are read. */
  predicate Matching(o: Options) {
    o.delimiter == [COMMA] && o.quote == [QUOTE] && o.multiline
  }

  /** No backslash stands in front of a quote or of another backslash. */
  predicate NoEscapes(f: seq<byte>) {
    forall i | 0 <= i < |f| - 1 :: f[i] == BACKSLASH ==> f[i + 1] != QUOTE && f[i + 1] != BACKSLASH
  }

  /** Nor does one stand at the end, where the closing quote follows. */
  predicate Clean(f: seq<byte>) {
    NoEscapes(f) && (f != [] ==> f[|f| - 1] != BACKSLASH)
  }

  /** The printer knows no backslash escapes; a reader that does must not find one in a quoted field. */
  predicate LegibleField(f: seq<byte>, o: Options) {
    o.legacy && NeedsQuotes(f) ==> Clean(f)
  }

  predicate Legible(fields: seq<seq<byte>>, o: Options) {
    forall i | 0 <= i < |fields| :: LegibleField(fields[i], o)
  }

  /** What may follow a field. */
  predicate FieldEnd(rest: seq<byte>) {
    rest == [] || rest[0] == COMMA
  }

  lemma StartsWith(s: seq<byte>, b: byte)
    ensures [b] <= s <==> s != [] && s[0] == b
  {
  }

  lemma CleanRest(f: seq<byte>)
    requires Clean(f) && f != []
    ensures Clean(f[1..]) && (f[0] == BACKSLASH ==> |f| >= 2 && f[1] != QUOTE && f[1] != BACKSLASH)
  {
    assert forall i | 0 <= i < |f[1..]| :: f[1..][i] == f[i + 1];
  }

  lemma NoEscapesRest(f: seq<byte>)
    requires NoEscapes(f) && f != []
    ensures NoEscapes(f[1..]) && (f[0] == BACKSLASH && |f| >= 2 ==> f[1] != QUOTE && f[1] != BACKSLASH)
  {
    assert forall i | 0 <= i < |f[1..]| :: f[1..][i] == f[i + 1];
  }

  /** A byte that neither closes nor escapes is text. */
  lemma OneByte(s: seq<byte>, out: seq<byte>, escaped: bool, o: Options)
    requires Matching(o) && s != [] && s[0] != QUOTE
    requires o.legacy && s[0] == BACKSLASH && |s| >= 2 ==> s[1] != QUOTE && s[1] != BACKSLASH
    ensures Quoted(s, out, escaped, o) == Quoted(s[1..], out + [s[0]], escaped, o)
  {
    StartsWith(s, QUOTE);
    StartsWith(s[1..], QUOTE);
  }

  /** A doubled quote is one. */
  lemma TwoQuotes(s: seq<byte>, out: seq<byte>, escaped: bool, o: Options)
    requires Matching(o) && |s| >= 2 && s[0] == s[1] == QUOTE && |out| <= o.limit
    ensures Quoted(s, out, escaped, o) == Quoted(s[2..], out + [QUOTE], true, o)
  {
    StartsWith(s, QUOTE);
    StartsWith(s[1..], QUOTE);
    assert s[1..][1..] == s[2..];
  }

  /** A quote with something else behind it ends the field. */
  lemma ClosingQuote(s: seq<byte>, out: seq<byte>, escaped: bool, o: Options)
    requires Matching(o) && s != [] && s[0] == QUOTE && FieldEnd(s[1..]) && |out| <= o.limit
    ensures Quoted(s, out, escaped, o) == Closed(out, escaped, s[1..])
  {
    StartsWith(s, QUOTE);
    StartsWith(s[1..], QUOTE);
    StartsWith(s[1..], COMMA);
  }

  lemma {:induction false} ReadDoubled(f: seq<byte>, rest: seq<byte>, out: seq<byte>, escaped: bool, o: Options)
    requires Matching(o) && FieldEnd(rest) && |out| + |f| <= o.limit && (o.legacy ==> Clean(f))
    ensures Quoted(Doubled(f) + ([QUOTE] + rest), out, escaped, o) == Closed(out + f, escaped || QUOTE in f, rest)
    decreases |f|
  {
    hide Quoted, Clean;
    var s := Doubled(f) + ([QUOTE] + rest);
    if f == [] {
      assert s == [QUOTE] + rest && s[1..] == rest && out + f == out;
      ClosingQuote(s, out, escaped, o);
    } else {
      var tail := Doubled(f[1..]) + ([QUOTE] + rest);
      assert f == [f[0]] + f[1..];
      assert out + [f[0]] + f[1..] == out + f;
      if o.legacy {
        CleanRest(f);
      }
      if f[0] == QUOTE {
        assert s == [QUOTE, QUOTE] + tail && s[2..] == tail;
        TwoQuotes(s, out, escaped, o);
        ReadDoubled(f[1..], rest, out + [QUOTE], true, o);
      } else {
        assert s == [f[0]] + tail && s[1..] == tail;
        OneByte(s, out, escaped, o);
        ReadDoubled(f[1..], rest, out + [f[0]], escaped, o);
      }
    }
  }

  /** A quoted field cut off before its closing quote is open. */
  lemma {:induction false} ReadCut(f: seq<byte>, out: seq<byte>, escaped: bool, o: Options)
    requires Matching(o) && |out| + |f| <= o.limit && (o.legacy ==> NoEscapes(f))
    ensures Quoted(Doubled(f), out, escaped, o) == Open
    decreases |f|
  {
    var s := Doubled(f);
    if f != [] {
      hide Quoted, NoEscapes;
      var tail := Doubled(f[1..]);
      if o.legacy {
        NoEscapesRest(f);
      }
      if f[0] == QUOTE {
        assert s == [QUOTE, QUOTE] + tail && s[2..] == tail;
        TwoQuotes(s, out, escaped, o);
        ReadCut(f[1..], out + [QUOTE], true, o);
      } else {
        assert s == [f[0]] + tail && s[1..] == tail;
        OneByte(s, out, escaped, o);
        ReadCut(f[1..], out + [f[0]], escaped, o);
      }
    }
  }

  lemma {:induction false} PlainDelimiter(f: seq<byte>, rest: seq<byte>)
    requires !NeedsQuotes(f) && FieldEnd(rest)
    ensures ToDelimiter(f + rest, [COMMA]) == |f|
    decreases |f|
  {
    StartsWith(f + rest, COMMA);
    if f == [] {
      assert f + rest == rest;
    } else {
      assert !Special(f[0]);
      assert (f + rest)[1..] == f[1..] + rest;
      forall i | 0 <= i < |f[1..]| ensures !Special(f[1..][i]) {
        assert f[1..][i] == f[i + 1];
      }
      PlainDelimiter(f[1..], rest);
    }
  }

  lemma {:induction false} BlanksOfPlain(f: seq<byte>, rest: seq<byte>, o: Options)
    requires !NeedsQuotes(f) && FieldEnd(rest) && Matching(o)
    ensures Blanks(f + rest, o) <= |f + rest| && !(o.quote <= (f + rest)[Blanks(f + rest, o)..])
    decreases |f|
  {
    var s := f + rest;
    var n := Blanks(s, o);
    StartsWith(s[n..], QUOTE);
    assert s[0..] == s;
    if f == [] {
      assert s == rest;
    } else {
      assert !Special(f[0]);
      forall i | 0 <= i < |f[1..]| ensures !Special(f[1..][i]) {
        assert f[1..][i] == f[i + 1];
      }
      BlanksOfPlain(f[1..], rest, o);
      assert s[1..] == f[1..] + rest;
      if n > 0 {
        assert s[n..] == s[1..][n - 1..];
      }
    }
  }

  function CellFor(f: seq<byte>): Cell {
    Cell(f, NeedsQuotes(f))
  }

  lemma FieldIsRead(f: seq<byte>, rest: seq<byte>, o: Options)
    requires Matching(o) && FieldEnd(rest) && |f| <= o.limit && ValidUtf8(f) && LegibleField(f, o)
    ensures FieldAt(Escaped(f) + rest, o) == Got(CellFor(f), rest)
  {
    hide Quoted, Blanks, ToDelimiter, ValidUtf8, Doubled, FieldAt, NeedsQuotes, Clean;
    if NeedsQuotes(f) {
      QuotedFieldIsRead(f, rest, o);
    } else {
      PlainFieldIsRead(f, rest, o);
    }
  }

  lemma QuotedFieldIsRead(f: seq<byte>, rest: seq<byte>, o: Options)
    requires Matching(o) && FieldEnd(rest) && |f| <= o.limit && ValidUtf8(f) && (o.legacy ==> Clean(f))
             && NeedsQuotes(f)
    ensures FieldAt(Escaped(f) + rest, o) == Got(CellFor(f), rest)
  {
    hide Quoted, Blanks, ToDelimiter, ValidUtf8, Doubled, NeedsQuotes, Clean;
    var s := Escaped(f) + rest;
    assert s == [QUOTE] + (Doubled(f) + ([QUOTE] + rest));
    StartsWith(s, QUOTE);
    NoBlanks(s, o);
    assert s[0..] == s && s[1..] == Doubled(f) + ([QUOTE] + rest);
    ReadDoubled(f, rest, [], false, o);
    assert [] + f == f;
  }

  lemma PlainFieldIsRead(f: seq<byte>, rest: seq<byte>, o: Options)
    requires Matching(o) && FieldEnd(rest) && |f| <= o.limit && !NeedsQuotes(f)
    ensures FieldAt(Escaped(f) + rest, o) == Got(CellFor(f), rest)
  {
    hide Quoted, Blanks, ToDelimiter, NeedsQuotes;
    var s := f + rest;
    BlanksOfPlain(f, rest, o);
    PlainDelimiter(f, rest);
    assert s[..|f|] == f && s[|f|..] == rest;
  }

  lemma NoBlanks(s: seq<byte>, o: Options)
    requires s != [] && s[0] == QUOTE
    ensures Blanks(s, o) == 0
  {
  }

  lemma CutIsOpen(f: seq<byte>, o: Options)
    requires Matching(o) && |f| <= o.limit && (o.legacy ==> NoEscapes(f))
    ensures FieldAt([QUOTE] + Doubled(f), o) == NotClosed
  {
    hide Quoted, Doubled, NoEscapes;
    var s := [QUOTE] + Doubled(f);
    StartsWith(s, QUOTE);
    NoBlanks(s, o);
    assert s[0..] == s && s[1..] == Doubled(f);
    ReadCut(f, [], false, o);
  }

  // ---------------------------------------------------------------- reading one row

  predicate Printable(fields: seq<seq<byte>>, o: Options) {
    fields != [] && forall i | 0 <= i < |fields| :: ValidUtf8(fields[i]) && |fields[i]| <= o.limit
  }

  function CellsFor(fields: seq<seq<byte>>): seq<Cell> {
    if fields == [] then [] else [CellFor(fields[0])] + CellsFor(fields[1..])
  }

  lemma PrintableRest(fields: seq<seq<byte>>, o: Options)
    requires Printable(fields, o) && |fields| > 1
    ensures Printable(fields[1..], o)
  {
    assert forall i | 0 <= i < |fields[1..]| :: fields[1..][i] == fields[i + 1];
  }

  lemma LegibleRest(fields: seq<seq<byte>>, o: Options)
    requires Legible(fields, o) && fields != []
    ensures LegibleField(fields[0], o) && Legible(fields[1..], o)
  {
    hide LegibleField;
    assert forall i | 0 <= i < |fields[1..]| :: fields[1..][i] == fields[i + 1];
  }

  lemma {:induction false} RowParses(fields: seq<seq<byte>>, o: Options)
    requires Matching(o) && Printable(fields, o) && Legible(fields, o)
    ensures ParseFields(RowBody(fields), o) == Fine(Some(CellsFor(fields)))
    decreases |fields|
  {
    hide FieldAt, Escaped, ValidUtf8, CellFor, Legible, LegibleField;
    LegibleRest(fields, o);
    if |fields| == 1 {
      FieldIsRead(fields[0], [], o);
      assert Escaped(fields[0]) + [] == Escaped(fields[0]);
      assert fields[1..] == [] && [CellFor(fields[0])] + [] == [CellFor(fields[0])];
    } else {
      var rest := [COMMA] + RowBody(fields[1..]);
      FieldIsRead(fields[0], rest, o);
      assert rest[1..] == RowBody(fields[1..]);
      PrintableRest(fields, o);
      RowParses(fields[1..], o);
    }
  }

  lemma {:induction false} DoubledCut(f: seq<byte>, m: nat) returns (j: nat)
    requires m < |Doubled(f)| && Doubled(f)[m] != QUOTE
    ensures j <= |f| && Doubled(f)[..m] == Doubled(f[..j])
    decreases |f|
  {
    var head: seq<byte> := if f[0] == QUOTE then [QUOTE, QUOTE] else [f[0]];
    if m == 0 {
      j := 0;
    } else {
      assert Doubled(f)[m] == Doubled(f[1..])[m - |head|];
      j := DoubledCut(f[1..], m - |head|);
      j := j + 1;
      assert f[..j][1..] == f[1..][..j - 1] && f[..j][0] == f[0];
      assert Doubled(f)[..m] == head + Doubled(f[1..])[..m - |head|];
    }
  }

  lemma CutHasNoEscapes(f: seq<byte>, j: nat, o: Options)
    requires LegibleField(f, o) && NeedsQuotes(f) && j <= |f|
    ensures o.legacy ==> NoEscapes(f[..j])
  {
    hide NeedsQuotes;
  }

  lemma CutInFirst(fields: seq<seq<byte>>, k: nat, o: Options)
    requires Matching(o) && Printable(fields, o) && LegibleField(fields[0], o)
    requires k < |Escaped(fields[0])| <= |RowBody(fields)| && Terminator(RowBody(fields)[k])
    ensures ParseFields(RowBody(fields)[..k], o) == Fine(None)
  {
    hide FieldAt, ValidUtf8, Quoted, LegibleField, Doubled;
    var f := fields[0];
    var first := Escaped(f);
    assert first <= RowBody(fields);
    assert RowBody(fields)[k] == first[k] && RowBody(fields)[..k] == first[..k];
    hide RowBody;
    QuotedBreak(f, k);
    var j := DoubledCut(f, k - 1);
    CutHasNoEscapes(f, j, o);
    assert first[..k] == [QUOTE] + Doubled(f)[..k - 1];
    CutIsOpen(f[..j], o);
  }

  /** Cut off in front of a line break inside a field, a row is an open quoted field. */
  lemma {:induction false} CutRowIsOpen(fields: seq<seq<byte>>, k: nat, o: Options)
    requires Matching(o) && Printable(fields, o) && Legible(fields, o) && k < |RowBody(fields)|
             && Terminator(RowBody(fields)[k])
    ensures ParseFields(RowBody(fields)[..k], o) == Fine(None)
    decreases |fields|
  {
    hide FieldAt, ValidUtf8, CellFor, Legible, LegibleField, Escaped;
    LegibleRest(fields, o);
    var first := Escaped(fields[0]);
    if k < |first| {
      CutInFirst(fields, k, o);
    } else {
      var more := RowBody(fields[1..]);
      var m := k - |first| - 1;
      assert RowBody(fields) == first + ([COMMA] + more);
      assert k != |first|;
      assert more[m] == RowBody(fields)[k];
      PrintableRest(fields, o);
      CutRowIsOpen(fields[1..], m, o);
      assert RowBody(fields)[..k] == first + ([COMMA] + more[..m]);
      FieldIsRead(fields[0], [COMMA] + more[..m], o);
      assert ([COMMA] + more[..m])[1..] == more[..m];
    }
  }

  /** A line break of a printed field lies between its quotes. */
  lemma QuotedBreak(f: seq<byte>, k: nat)
    requires k < |Escaped(f)| && Terminator(Escaped(f)[k])
    ensures NeedsQuotes(f) && 1 <= k <= |Doubled(f)| && Doubled(f)[k - 1] == Escaped(f)[k]
  {
    if !NeedsQuotes(f) {
      assert Special(f[k]);
    }
  }

  // ---------------------------------------------------------------- the bytes of a row

  lemma {:induction false} PlainDoubled(s: seq<byte>)
    requires forall i | 0 <= i < |s| :: s[i] != QUOTE
    ensures Doubled(s) == s
    decreases |s|
  {
    if s != [] {
      PlainDoubled(s[1..]);
    }
  }

  lemma {:induction false} DoubledConcat(a: seq<byte>, b: seq<byte>)
    ensures Doubled(a + b) == Doubled(a) + Doubled(b)
    decreases |a|
  {
    if a == [] {
      assert a + b == b && Doubled(a) + Doubled(b) == Doubled(b);
    } else {
      DoubledConcat(a[1..], b);
      assert (a + b)[1..] == a[1..] + b && (a + b)[0] == a[0];
    }
  }

  lemma {:induction false} DoubledIsUtf8(s: seq<byte>)
    requires ValidUtf8(s)
    ensures ValidUtf8(Doubled(s))
    decreases |s|
  {
    if s != [] {
      var n := CharLength(s);
      DoubledIsUtf8(s[n..]);
      assert s == s[..n] + s[n..];
      DoubledConcat(s[..n], s[n..]);
      CharIsUtf8(s);
      if s[0] == QUOTE {
        assert s[..1] == [QUOTE] && [QUOTE][1..] == [];
        assert [QUOTE, QUOTE][1..] == [QUOTE];
      } else {
        PlainDoubled(s[..n]);
      }
      ValidConcat(Doubled(s[..n]), Doubled(s[n..]));
    }
  }

  /** One character is valid text; its bytes are not quotes unless it is one. */
  lemma CharIsUtf8(s: seq<byte>)
    requires CharLength(s) > 0
    ensures var n := CharLength(s); ValidUtf8(s[..n]) && (s[0] != QUOTE ==> forall i | 0 <= i < n :: s[..n][i] != QUOTE)
    ensures s[0] == QUOTE ==> CharLength(s) == 1
  {
    var n := CharLength(s);
    assert CharLength(s[..n]) == n && s[..n][n..] == [];
  }

  lemma AsciiIsUtf8(b: byte)
    requires b < 0x80
    ensures ValidUtf8([b])
  {
    assert [b][1..] == [];
  }

  lemma EscapedIsUtf8(f: seq<byte>)
    requires ValidUtf8(f)
    ensures ValidUtf8(Escaped(f))
  {
    if NeedsQuotes(f) {
      DoubledIsUtf8(f);
      AsciiIsUtf8(QUOTE);
      ValidConcat([QUOTE], Doubled(f));
      ValidConcat([QUOTE] + Doubled(f), [QUOTE]);
    }
  }

  lemma {:induction false} RowIsUtf8(fields: seq<seq<byte>>, o: Options)
    requires Printable(fields, o)
    ensures ValidUtf8(RowBody(fields)) && ValidUtf8(Row(fields))
    decreases |fields|
  {
    hide ValidUtf8, Escaped;
    EscapedIsUtf8(fields[0]);
    if |fields| > 1 {
      PrintableRest(fields, o);
      RowIsUtf8(fields[1..], o);
      AsciiIsUtf8(COMMA);
      ValidConcat([COMMA], RowBody(fields[1..]));
      ValidConcat(Escaped(fields[0]), [COMMA] + RowBody(fields[1..]));
    }
    AsciiIsUtf8(LF);
    ValidConcat(RowBody(fields), [LF]);
  }

  lemma EscapedEnd(f: seq<byte>)
    ensures Escaped(f) != [] ==> !Terminator(Escaped(f)[|Escaped(f)| - 1]) && !Terminator(Escaped(f)[0])
    ensures Escaped(f) == [] <==> f == []
  {
    if !NeedsQuotes(f) && f != [] {
      assert !Special(f[|f| - 1]) && !Special(f[0]);
    }
  }

  /** A row neither starts nor ends with a line break of its own. */
  lemma {:induction false} RowEnds(fields: seq<seq<byte>>)
    requires fields != []
    ensures RowBody(fields) == [] <==> fields == [[]]
    ensures RowBody(fields) != [] ==>
              !Terminator(RowBody(fields)[|RowBody(fields)| - 1]) && !Terminator(RowBody(fields)[0])
    decreases |fields|
  {
    hide Escaped;
    EscapedEnd(fields[0]);
    if |fields| > 1 {
      RowEnds(fields[1..]);
    } else {
      assert fields == [fields[0]];
    }
  }

  // ---------------------------------------------------------------- reading a row back

  /** The row starts with a byte order mark, outside quotes. */
  predicate StartsWithMark(fields: seq<seq<byte>>) {
    BYTE_ORDER_MARK <= Row(fields)
  }

  /** The next physical line of a printed row ends at a line break of the row. */
  lemma LineOfRow(row: seq<byte>, m: nat, rest: seq<byte>, line: nat, fails: bool, o: Options)
    requires row != [] && row[|row| - 1] == LF && m < |row| <= o.recordLimit
    ensures var taken := TakeLine(row[m..] + rest, m, line, fails, o);
            && taken.Fine? && 0 < taken.value <= |row| - m
            && (row[m..] + rest)[..taken.value] == row[m..m + taken.value]
            && (row[m..] + rest)[taken.value..] == row[m + taken.value..] + rest
            && Terminator(row[m + taken.value - 1])
  {
    var s := row[m..] + rest;
    assert forall i | 0 <= i < |row| - m :: s[i] == row[m + i];
    FirstBreak(s, |row| - 1 - m);
    hide ToTerminator;
  }

  lemma FirstBreak(s: seq<byte>, k: nat)
    requires k < |s| && Terminator(s[k])
    ensures ToTerminator(s) <= k
  {
  }

  lemma BodyEnds(raw: seq<byte>)
    requires raw != [] && Terminator(raw[|raw| - 1])
    ensures BodyLength(raw) < |raw| && Terminator(raw[BodyLength(raw)])
  {
  }

  /** A row up to the end of one of its lines: all of it is the record, less is an open field. */
  lemma LineParses(fields: seq<seq<byte>>, k: nat, o: Options)
    requires Matching(o) && Printable(fields, o) && Legible(fields, o) && fields != [[]]
    requires 0 < k <= |Row(fields)| && Terminator(Row(fields)[k - 1])
    ensures !BlankLine(Row(fields)[..k])
    ensures Parse(Row(fields)[..k], o) == if k == |Row(fields)| then Fine(Some(CellsFor(fields))) else Fine(None)
    ensures ValidUtf8(Row(fields))
  {
    hide ParseFields, ValidUtf8, RowBody, CellsFor, Legible;
    var row := Row(fields);
    var raw := row[..k];
    RowEnds(fields);
    assert row[0] == RowBody(fields)[0];
    assert raw[0] == row[0] && raw[k - 1] == row[k - 1];
    BodyEnds(raw);
    RowIsUtf8(fields, o);
    var n := BodyLength(raw);
    if k == |row| {
      assert raw == row;
      assert row[|row| - 2] == RowBody(fields)[|RowBody(fields)| - 1];
      assert raw[..n] == RowBody(fields);
      RowParses(fields, o);
    } else {
      assert raw[..n] == RowBody(fields)[..n] && row[n] == RowBody(fields)[n] && raw[n] == row[n];
      CutRowIsOpen(fields, n, o);
    }
  }

  /** One more line of a row, up to `k`, decides or goes on. */
  lemma RowLine(row: seq<byte>, m: nat, rest: seq<byte>, place: Place, line: nat, fails: bool, o: Options)
      returns (k: nat)
    requires row != [] && row[|row| - 1] == LF && m < |row| <= o.recordLimit && o.multiline
    requires place.first ==> m == 0 && !(BYTE_ORDER_MARK <= row)
    ensures m < k <= |row| && Terminator(row[k - 1])
    ensures var next := NextFrom(row[..m], row[m..] + rest, place, line, fails, o);
            !BlankLine(row[..k]) ==>
              next == match Parse(row[..k], o)
                      case Failed(e) => Fail(e)
                      case Fine(Some(cells)) => Complete(line, row[..k], cells, Place(false, place.line + 1),
                                                         row[k..] + rest)
                      case Fine(None) => NextFrom(row[..k], row[k..] + rest, Place(false, place.line + 1), line, fails,
                                                  o)
  {
    hide NextFrom, TakeLine, Parse, BlankLine, Terminator;
    LineOfRow(row, m, rest, line, fails, o);
    LineDecides(row[..m], row[m..] + rest, place, line, fails, o);
    k := m + TakeLine(row[m..] + rest, m, line, fails, o).value;
    assert row[..m] + row[m..k] == row[..k];
  }

  /** The lines of a printed row, read one after another, make the row; no shorter part is a record. */
  lemma {:induction false} RowIsRead(fields: seq<seq<byte>>, m: nat, rest: seq<byte>, place: Place, line: nat,
                                     fails: bool, o: Options)
    requires Matching(o) && Printable(fields, o) && Legible(fields, o) && fields != [[]]
             && m < |Row(fields)| <= o.recordLimit
    requires place.first ==> m == 0 && !StartsWithMark(fields)
    ensures var next := NextFrom(Row(fields)[..m], Row(fields)[m..] + rest, place, line, fails, o);
            next.Rec? && next.recordLine == line && next.cells == CellsFor(fields) && next.rest == rest
                && !next.place.first
    decreases |Row(fields)| - m
  {
    hide NextFrom, Parse, ValidUtf8, Row, CellsFor, BlankLine, Printable, Legible;
    var row := Row(fields);
    RowLast(fields);
    var k := RowLine(row, m, rest, place, line, fails, o);
    LineParses(fields, k, o);
    if k == |row| {
      assert row[..k] == row && row[k..] + rest == rest;
    } else {
      RowIsRead(fields, k, rest, Place(false, place.line + 1), line, fails, o);
    }
  }

  lemma RowLast(fields: seq<seq<byte>>)
    ensures |Row(fields)| > 0 && Row(fields)[|Row(fields)| - 1] == LF
  {
  }

  /** Printed rows one after another. */
  function Printed(rows: seq<seq<seq<byte>>>): seq<byte> {
    if rows == [] then [] else Row(rows[0]) + Printed(rows[1..])
  }

  /** A row that reads back: at least one field, not a single empty one, no backslash escapes for a reader
      that takes them, and within the limits. */
  predicate ReadsBack(fields: seq<seq<byte>>, o: Options) {
    Printable(fields, o) && Legible(fields, o) && fields != [[]] && |Row(fields)| <= o.recordLimit
  }

  function Cells(records: seq<(nat, seq<Cell>)>): seq<seq<Cell>> {
    if records == [] then [] else [records[0].1] + Cells(records[1..])
  }

  function RowCells(rows: seq<seq<seq<byte>>>): seq<seq<Cell>> {
    if rows == [] then [] else [CellsFor(rows[0])] + RowCells(rows[1..])
  }

  /** Reading what was printed gives back every row, each field with its quoting. */
  lemma {:induction false} PrintedRowsReadBack(rows: seq<seq<seq<byte>>>, place: Place, o: Options)
    requires Matching(o) && forall i | 0 <= i < |rows| :: ReadsBack(rows[i], o)
    requires place.first && rows != [] ==> !StartsWithMark(rows[0])
    ensures var (records, error) := AllRecords(Printed(rows), place, false,
                                               o); Cells(records) == RowCells(rows) && error == None
    decreases |rows|
  {
    hide NextFrom, CellsFor, Row;
    if rows == [] {
      NothingToRead(place, o);
    } else {
      var rest := Printed(rows[1..]);
      RowNotEmpty(rows[0]);
      RowIsRead(rows[0], 0, rest, place, place.line + 1, false, o);
      assert Row(rows[0])[..0] == [] && Row(rows[0])[0..] == Row(rows[0]);
      var next := NextRecord(Printed(rows), place, false, o);
      PrintedRowsReadBack(rows[1..], next.place, o);
      var more := AllRecords(rest, next.place, false, o);
      assert ([(next.recordLine, next.cells)] + more.0)[1..] == more.0;
    }
  }

  lemma RowNotEmpty(fields: seq<seq<byte>>)
    ensures |Row(fields)| > 0
  {
  }

  lemma NothingToRead(place: Place, o: Options)
    ensures NextRecord([], place, false, o) == End
  {
  }

  // ---------------------------------------------------------------- what does not read back

  /** A row of no fields, or of one empty field, prints as a blank line and is skipped. */
  lemma BlankRowsAreSkipped(fields: seq<seq<byte>>, place: Place, o: Options)
    requires (fields == [] || fields == [[]]) && o.recordLimit >= 1
    ensures AllRecords(Row(fields), place, false, o) == ([], None)
  {
    assert Row(fields) == [LF];
    assert TakeLine([LF], 0, place.line + 1, false, o) == Fine(1);
    assert [LF][..1] == [LF] && [LF][1..] == [] && [] + [LF] == [LF];
    NothingToRead(Place(false, place.line + 1), o);
  }

  /** The first line of a stream that starts with a mark is read without it. */
  lemma MarkedLine(row: seq<byte>, row': seq<byte>, rest: seq<byte>, line: nat, fails: bool, o: Options)
      returns (k: nat)
    requires row == BYTE_ORDER_MARK + row' && row' != [] && row'[|row'| - 1] == LF && |row| <= o.recordLimit
             && o.multiline
    ensures 0 < k <= |row'| && Terminator(row'[k - 1])
    ensures var next := NextRecord(row + rest, Place(true, line), fails, o);
            !BlankLine(row'[..k]) ==>
              next == match Parse(row'[..k], o)
                      case Failed(e) => Fail(e)
                      case Fine(Some(cells)) => Complete(line + 1, row'[..k], cells, Place(false, line + 1),
                                                         row'[k..] + rest)
                      case Fine(None) => NextFrom(row'[..k], row'[k..] + rest, Place(false, line + 1), line + 1, fails,
                                                  o)
  {
    hide NextFrom, TakeLine, Parse, BlankLine, Terminator, Complete;
    assert row[|row| - 1] == LF && row[0..] == row && row[..0] == [];
    LineOfRow(row, 0, rest, line + 1, fails, o);
    LineDecides([], row + rest, Place(true, line), line + 1, fails, o);
    var n := TakeLine(row + rest, 0, line + 1, fails, o).value;
    assert [] + row[..n] == row[..n];
    MarkedRow(row, row', n);
    k := n - 3;
  }

  /** A byte order mark in front of the first record, outside quotes, is lost: the record read is that of
      the row without it. */
  lemma MarkIsLost(fields: seq<seq<byte>>, fields': seq<seq<byte>>, rest: seq<byte>, line: nat, fails: bool, o: Options)
    requires Matching(o) && Printable(fields', o) && Legible(fields', o) && fields' != [[]]
    requires Row(fields) == BYTE_ORDER_MARK + Row(fields') && |Row(fields)| <= o.recordLimit
    ensures var next := NextRecord(Row(fields) + rest, Place(true, line), fails, o);
            next.Rec? && next.cells == CellsFor(fields') && next.rest == rest
  {
    hide NextFrom, Parse, ValidUtf8, Row, CellsFor, BlankLine, Printable, Legible;
    var row' := Row(fields');
    RowLast(fields');
    var k := MarkedLine(Row(fields), row', rest, line, fails, o);
    LineParses(fields', k, o);
    if k == |row'| {
      assert row'[..k] == row' && row'[k..] + rest == rest;
    } else {
      RowIsRead(fields', k, rest, Place(false, line + 1), line + 1, fails, o);
    }
  }

  lemma MarkedRow(row: seq<byte>, row': seq<byte>, n: nat)
    requires row == BYTE_ORDER_MARK + row' && 0 < n <= |row| && Terminator(row[n - 1])
    ensures 3 < n && BYTE_ORDER_MARK <= row[..n] && row[..n][3..] == row'[..n - 3] && row[n..] == row'[n - 3..]
    ensures row[n - 1] == row'[n - 4]
  {
    assert row[0] == 0xEF && row[1] == 0xBB && row[2] == 0xBF;
  }

  lemma UnquotedFirst(fields: seq<seq<byte>>)
    requires fields != [] && !NeedsQuotes(fields[0])
    ensures Row(fields) == fields[0] + ((if |fields| == 1 then [] else [COMMA] + RowBody(fields[1..])) + [LF])
  {
    hide NeedsQuotes;
    var tail := if |fields| == 1 then [] else [COMMA] + RowBody(fields[1..]);
    assert RowBody(fields) == fields[0] + tail;
    assert (fields[0] + tail) + [LF] == fields[0] + (tail + [LF]);
  }

  /** A mark at the start of a row is the start of its first field, which has no quotes. */
  lemma MarkInField(fields: seq<seq<byte>>)
    requires fields != [] && StartsWithMark(fields)
    ensures !NeedsQuotes(fields[0]) && BYTE_ORDER_MARK <= fields[0] && !NeedsQuotes(fields[0][3..])
  {
    var f, row := fields[0], Row(fields);
    assert row[0] == 0xEF && row[1] == 0xBB && row[2] == 0xBF;
    assert Escaped(f) + [COMMA] <= row || row == Escaped(f) + [LF];
    assert f != [] && !NeedsQuotes(f) && |f| >= 3;
    forall i | 0 <= i < |f[3..]| ensures !Special(f[3..][i]) {
      assert f[3..][i] == f[i + 3];
    }
  }

  lemma PrintableUnmarked(fields: seq<seq<byte>>, o: Options)
    requires Printable(fields, o) && BYTE_ORDER_MARK <= fields[0]
    ensures Printable([fields[0][3..]] + fields[1..], o)
  {
    var g, fields' := fields[0][3..], [fields[0][3..]] + fields[1..];
    assert fields[0] == BYTE_ORDER_MARK + g;
    assert CharLength(BYTE_ORDER_MARK) == 3 && BYTE_ORDER_MARK[3..] == [];
    ValidConcat(BYTE_ORDER_MARK, g);
    assert fields'[0] == g;
    assert forall i | 0 < i < |fields'| :: fields'[i] == fields[i];
  }

  lemma MarkedField(fields: seq<seq<byte>>, o: Options)
    requires Printable(fields, o) && StartsWithMark(fields)
    ensures fields != [] && |fields[0]| >= 3 && Row(fields) == BYTE_ORDER_MARK + Row([fields[0][3..]] + fields[1..])
    ensures Printable([fields[0][3..]] + fields[1..], o)
  {
    hide ValidUtf8, RowBody, Row, StartsWithMark, NeedsQuotes;
    MarkInField(fields);
    PrintableUnmarked(fields, o);
    var g, fields' := fields[0][3..], [fields[0][3..]] + fields[1..];
    assert fields'[1..] == fields[1..] && fields'[0] == g;
    UnquotedFirst(fields);
    UnquotedFirst(fields');
    var tail := (if |fields| == 1 then [] else [COMMA] + RowBody(fields[1..])) + [LF];
    assert fields[0] == BYTE_ORDER_MARK + g;
    assert (BYTE_ORDER_MARK + g) + tail == BYTE_ORDER_MARK + (g + tail);
  }

  lemma OneRecord(next: Next, s: seq<byte>, place: Place, o: Options)
    requires next == NextRecord(s, place, false, o) && next.Rec? && next.rest == []
    ensures AllRecords(s, place, false, o) == ([(next.recordLine, next.cells)], None)
    ensures Cells(AllRecords(s, place, false, o).0) == [next.cells]
  {
    hide NextFrom;
    AllStep(s, place, false, o);
    NothingToRead(next.place, o);
    AllStep([], next.place, false, o);
    assert [(next.recordLine, next.cells)] + [] == [(next.recordLine, next.cells)];
    assert [(next.recordLine, next.cells)][1..] == [] && [next.cells] + [] == [next.cells];
  }

  // ---------------------------------------------------------------- only legible rows read back

  function Slashes(n: nat): seq<byte> {
    seq(n, _ => BACKSLASH)
  }

  /** The field that was read is `out`, `n` backslashes and `g`. */
  ghost predicate Says(r: QuotedField, out: seq<byte>, n: nat, g: seq<byte>) {
    r.Closed? && r.text == out + Slashes(n) + g
  }

  /** Text that was read stays. */
  lemma {:induction false} TextGrows(s: seq<byte>, out: seq<byte>, escaped: bool, o: Options)
    ensures var r := Quoted(s, out, escaped, o); r.Closed? ==> out <= r.text
    decreases |s|
  {
    var q := |o.quote|;
    if s != [] {
      if o.quote <= s {
        if o.quote <= s[q..] {
          TextGrows(s[q..][q..], out + o.quote, true, o);
        }
      } else if o.legacy && s[0] == BACKSLASH && o.quote <= s[1..] {
        TextGrows(s[1 + q..], out + o.quote, true, o);
      } else if o.legacy && s[0] == BACKSLASH && |s| >= 2 && s[1] == BACKSLASH {
        TextGrows(s[2..], out + [BACKSLASH], true, o);
      } else {
        TextGrows(s[1..], out + [s[0]], escaped, o);
      }
    }
  }

  /** The byte read next is the next one of what the field says. */
  lemma NextSaid(s: seq<byte>, out: seq<byte>, b: byte, escaped: bool, o: Options, n: nat, g: seq<byte>)
    ensures Says(Quoted(s, out + [b], escaped, o), out, n, g) ==>
              if n > 0 then b == BACKSLASH && Says(Quoted(s, out + [b], escaped, o), out + [b], n - 1, g)
              else g != [] && b == g[0] && Says(Quoted(s, out + [b], escaped, o), out + [b], 0, g[1..])
  {
    hide Quoted;
    TextGrows(s, out + [b], escaped, o);
    var r := Quoted(s, out + [b], escaped, o);
    if Says(r, out, n, g) {
      assert r.text[|out|] == b;
      if n > 0 {
        assert Slashes(n) == [BACKSLASH] + Slashes(n - 1);
        assert out + ([BACKSLASH] + Slashes(n - 1)) + g == (out + [BACKSLASH]) + Slashes(n - 1) + g;
      } else {
        assert out + Slashes(0) + g == out + g;
        assert out + g == (out + [g[0]]) + Slashes(0) + g[1..];
      }
    }
  }

  /** Backslashes of the text may be counted with those before it. */
  lemma MoreSlashes(r: QuotedField, out: seq<byte>, n: nat, g: seq<byte>)
    requires g != [] && g[0] == BACKSLASH
    ensures Says(r, out, n, g) == Says(r, out, n + 1, g[1..])
  {
    assert Slashes(n + 1) == Slashes(n) + [BACKSLASH];
    assert g == [BACKSLASH] + g[1..];
    assert out + Slashes(n) + ([BACKSLASH] + g[1..]) == out + (Slashes(n) + [BACKSLASH]) + g[1..];
  }

  /** What a reader with backslash escapes makes of the printed text of `g`, or of its beginning: a text
      that is `g`, with or without further backslashes in front, is read only when `g` is clean, and then
      it is `g` and all of its printed form was read. */
  ghost predicate ReadsOnlyClean(s: seq<byte>, out: seq<byte>, escaped: bool, o: Options, n: nat, g: seq<byte>) {
    var r := Quoted(s, out, escaped, o);
    Says(r, out, n, g) ==> n == 0 && Clean(g) && |Doubled(g)| < |s| && r.rest == s[|Doubled(g)| + 1..]
  }

  function Quoting(g: seq<byte>, rest: seq<byte>): seq<byte> {
    Doubled(g) + ([QUOTE] + rest)
  }

  lemma QuotingRest(g: seq<byte>, rest: seq<byte>)
    requires g != []
    ensures Quoting(g, rest) == (if g[0] == QUOTE then [QUOTE, QUOTE] else [g[0]]) + Quoting(g[1..], rest)
    ensures |Doubled(g)| == (if g[0] == QUOTE then 2 else 1) + |Doubled(g[1..])|
  {
    var first, more := if g[0] == QUOTE then [QUOTE, QUOTE] else [g[0]], Doubled(g[1..]);
    assert Doubled(g) == first + more;
    assert (first + more) + ([QUOTE] + rest) == first + (more + ([QUOTE] + rest));
  }

  /** The first byte of printed text. */
  lemma QuotingFirst(g: seq<byte>, rest: seq<byte>)
    ensures Quoting(g, rest) != [] && Quoting(g, rest)[0] == if g == [] then QUOTE else g[0]
  {
  }

  lemma NothingSaid(s: seq<byte>, out: seq<byte>, escaped: bool, rest: seq<byte>, o: Options, n: nat)
    requires Matching(o) && FieldEnd(rest) && s <= [QUOTE] + rest
    ensures ReadsOnlyClean(s, out, escaped, o, n, [])
  {
    if s != [] {
      assert s[1..] <= rest && s[0] == QUOTE;
      StartsWith(s, QUOTE);
      StartsWith(s[1..], QUOTE);
      StartsWith(s[1..], COMMA);
      assert |out + Slashes(n) + []| == |out| + n;
      assert Doubled([]) == [];
    }
  }

  lemma QuoteSaid(s: seq<byte>, out: seq<byte>, escaped: bool, o: Options, n: nat, g: seq<byte>)
    requires Matching(o) && s != [] && s[0] == QUOTE && g != [] && g[0] == QUOTE && (|s| >= 2 ==> s[1] == QUOTE)
    requires |s| >= 2 ==> ReadsOnlyClean(s[2..], out + [QUOTE], true, o, 0, g[1..])
    ensures ReadsOnlyClean(s, out, escaped, o, n, g)
  {
    hide Quoted, Clean, Says;
    if |s| == 1 {
      LoneQuote(s, out, escaped, o, n, g);
    } else {
      LongOrTwo(s, out, escaped, o);
      NextSaid(s[2..], out, QUOTE, true, o, n, g);
      QuotingRest(g, []);
      CleanAfter(g);
      TooLongSays(out, n, g);
      assert |Doubled(g[1..])| + 1 <= |s[2..]| ==> s[2..][|Doubled(g[1..])| + 1..] == s[|Doubled(g)| + 1..];
    }
  }

  lemma LoneQuote(s: seq<byte>, out: seq<byte>, escaped: bool, o: Options, n: nat, g: seq<byte>)
    requires Matching(o) && s == [QUOTE] && g != []
    ensures !Says(Quoted(s, out, escaped, o), out, n, g)
  {
    StartsWith(s, QUOTE);
    assert s[1..] == [];
    StartsWith([], QUOTE);
    assert |out + Slashes(n) + g| > |out|;
  }

  lemma LongOrTwo(s: seq<byte>, out: seq<byte>, escaped: bool, o: Options)
    requires Matching(o) && |s| >= 2 && s[0] == s[1] == QUOTE
    ensures Quoted(s, out, escaped, o) == if |out| > o.limit then Bad(FieldTooLong)
            else Quoted(s[2..], out + [QUOTE], true, o)
  {
    StartsWith(s, QUOTE);
    if |out| <= o.limit {
      TwoQuotes(s, out, escaped, o);
    }
  }

  lemma TooLongSays(out: seq<byte>, n: nat, g: seq<byte>)
    ensures !Says(Bad(FieldTooLong), out, n, g)
  {
  }

  lemma CleanAfter(g: seq<byte>)
    requires g != []
    ensures Clean(g[1..]) && (g[0] == BACKSLASH ==> |g| >= 2 && g[1] != QUOTE && g[1] != BACKSLASH) ==> Clean(g)
  {
    assert forall i | 0 <= i < |g[1..]| :: g[1..][i] == g[i + 1];
  }

  /** A byte of text that starts no escape. */
  lemma ByteSaid(s: seq<byte>, out: seq<byte>, escaped: bool, o: Options, n: nat, g: seq<byte>)
    requires Matching(o) && s != [] && g != [] && s[0] == g[0] != QUOTE
    requires g[0] == BACKSLASH ==> |s| >= 2 && |g| >= 2 && s[1] == g[1] && g[1] != QUOTE && g[1] != BACKSLASH
    requires ReadsOnlyClean(s[1..], out + [g[0]], escaped, o, 0, g[1..])
    requires g[0] == BACKSLASH && n > 0 ==> ReadsOnlyClean(s[1..], out + [g[0]], escaped, o, n, g[1..])
    ensures ReadsOnlyClean(s, out, escaped, o, n, g)
  {
    hide Quoted, Clean, Says;
    OneByte(s, out, escaped, o);
    NextSaid(s[1..], out, g[0], escaped, o, n, g);
    QuotingRest(g, []);
    CleanAfter(g);
    if n > 0 && g[0] == BACKSLASH {
      MoreSlashes(Quoted(s[1..], out + [g[0]], escaped, o), out + [g[0]], n - 1, g);
    }
    assert |Doubled(g[1..])| + 1 <= |s[1..]| ==> s[1..][|Doubled(g[1..])| + 1..] == s[|Doubled(g)| + 1..];
  }

  /** A backslash that escapes the quote behind it is lost. */
  lemma EscapedQuoteSaid(s: seq<byte>, out: seq<byte>, escaped: bool, o: Options, n: nat, g: seq<byte>)
    requires Matching(o) && o.legacy && |s| >= 2 && g != [] && s[0] == g[0] == BACKSLASH && s[1] == QUOTE
    ensures !Says(Quoted(s, out, escaped, o), out, n, g)
  {
    StartsWith(s, QUOTE);
    StartsWith(s[1..], QUOTE);
    assert Quoted(s, out, escaped, o) == Quoted(s[2..], out + [QUOTE], true, o);
    NextSaid(s[2..], out, QUOTE, true, o, n, g);
  }

  /** Of two backslashes one is lost: what follows is read with one fewer than it says. */
  lemma EscapedSlashSaid(s: seq<byte>, out: seq<byte>, escaped: bool, o: Options, n: nat, g: seq<byte>)
    requires Matching(o) && o.legacy && |s| >= 2 && |g| >= 2 && s[0] == s[1] == g[0] == g[1] == BACKSLASH
    requires ReadsOnlyClean(s[2..], out + [BACKSLASH], true, o, n + 1, g[2..])
    ensures !Says(Quoted(s, out, escaped, o), out, n, g)
  {
    hide Clean;
    StartsWith(s, QUOTE);
    StartsWith(s[1..], QUOTE);
    assert Quoted(s, out, escaped, o) == Bad(FieldTooLong) || Quoted(s, out, escaped, o)
           == Quoted(s[2..], out + [BACKSLASH], true, o);
    hide Quoted, Says;
    TooLongSays(out, n, g);
    var r := Quoted(s[2..], out + [BACKSLASH], true, o);
    MoreSlashes(r, out, n, g);
    assert g[1..][0] == BACKSLASH && g[1..][1..] == g[2..];
    MoreSlashes(r, out, n + 1, g[1..]);
    NextSaid(s[2..], out, BACKSLASH, true, o, n + 2, g[2..]);
  }

  /** The printed text ends behind its backslash: nothing closes it. */
  lemma LoneSlash(s: seq<byte>, out: seq<byte>, escaped: bool, o: Options)
    requires Matching(o) && s == [BACKSLASH]
    ensures !Quoted(s, out, escaped, o).Closed?
  {
    StartsWith(s, QUOTE);
    assert s[1..] == [];
    StartsWith([], QUOTE);
  }

  lemma {:induction false} OnlyCleanIsRead(g: seq<byte>, n: nat, s: seq<byte>, rest: seq<byte>, out: seq<byte>,
                                           escaped: bool, o: Options)
    requires Matching(o) && o.legacy && FieldEnd(rest) && s <= Quoting(g, rest)
    ensures ReadsOnlyClean(s, out, escaped, o, n, g)
    decreases |s|
  {
    hide ReadsOnlyClean, Clean, Quoting;
    if s == [] {
      NothingRead(out, escaped, o, n, g);
    } else if g == [] {
      NoQuoting(rest);
      NothingSaid(s, out, escaped, rest, o, n);
    } else {
      QuotingRest(g, rest);
      QuotingFirst(g, rest);
      QuotingFirst(g[1..], rest);
      if g[0] == QUOTE {
        if |s| >= 2 {
          assert s[2..] <= Quoting(g[1..], rest);
          OnlyCleanIsRead(g[1..], 0, s[2..], rest, out + [QUOTE], true, o);
        }
        QuoteSaid(s, out, escaped, o, n, g);
      } else {
        assert s[1..] <= Quoting(g[1..], rest);
        SlashOrByte(g, n, s, rest, out, escaped, o);
      }
    }
  }

  lemma NothingRead(out: seq<byte>, escaped: bool, o: Options, n: nat, g: seq<byte>)
    ensures ReadsOnlyClean([], out, escaped, o, n, g)
  {
  }

  lemma NoQuoting(rest: seq<byte>)
    ensures Quoting([], rest) == [QUOTE] + rest
  {
  }

  lemma NotSaid(s: seq<byte>, out: seq<byte>, escaped: bool, o: Options, n: nat, g: seq<byte>)
    requires !Says(Quoted(s, out, escaped, o), out, n, g)
    ensures ReadsOnlyClean(s, out, escaped, o, n, g)
  {
  }

  lemma {:induction false} SlashOrByte(g: seq<byte>, n: nat, s: seq<byte>, rest: seq<byte>, out: seq<byte>,
                                       escaped: bool, o: Options)
    requires Matching(o) && o.legacy && FieldEnd(rest) && g != [] && s != [] && s[0] == g[0] != QUOTE
    requires s <= Quoting(g, rest) && s[1..] <= Quoting(g[1..], rest)
    ensures ReadsOnlyClean(s, out, escaped, o, n, g)
    decreases |s|, 0
  {
    hide ReadsOnlyClean, Clean, Quoting, Quoted;
    QuotingFirst(g[1..], rest);
    assert |s| >= 2 ==> s[1] == s[1..][0] == Quoting(g[1..], rest)[0];
    if g[0] == BACKSLASH && |s| == 1 {
      LoneSlash(s, out, escaped, o);
      NotSaid(s, out, escaped, o, n, g);
    } else if g[0] == BACKSLASH && s[1] == QUOTE {
      EscapedQuoteSaid(s, out, escaped, o, n, g);
      NotSaid(s, out, escaped, o, n, g);
    } else if g[0] == BACKSLASH && s[1] == BACKSLASH {
      QuotingRest(g[1..], rest);
      assert s[1..][1..] == s[2..] && g[1..][1..] == g[2..];
      assert s[2..] <= Quoting(g[2..], rest);
      OnlyCleanIsRead(g[2..], n + 1, s[2..], rest, out + [BACKSLASH], true, o);
      EscapedSlashSaid(s, out, escaped, o, n, g);
      NotSaid(s, out, escaped, o, n, g);
    } else {
      OnlyCleanIsRead(g[1..], 0, s[1..], rest, out + [g[0]], escaped, o);
      OnlyCleanIsRead(g[1..], n, s[1..], rest, out + [g[0]], escaped, o);
      ByteSaid(s, out, escaped, o, n, g);
    }
  }
  // ---------------------------------------------------------------- rows that are not legible

  /** A field that reads as it was printed was legible, and all of its printed form was read. */
  lemma FieldMeans(f: seq<byte>, s: seq<byte>, rest: seq<byte>, o: Options)
    requires Matching(o) && FieldEnd(rest) && s <= Escaped(f) + rest
    ensures var r := FieldAt(s, o);
            r.Got? && r.cell == CellFor(f) ==> LegibleField(f, o) && |Escaped(f)| <= |s| && r.rest == s[|Escaped(f)|..]
  {
    hide Quoted, Doubled, NeedsQuotes, Clean, FieldAt;
    if NeedsQuotes(f) {
      QuotedFieldMeans(f, s, rest, o);
    } else {
      PlainFieldMeans(f, s, rest, o);
    }
  }

  lemma QuotedFieldMeans(f: seq<byte>, s: seq<byte>, rest: seq<byte>, o: Options)
    requires Matching(o) && FieldEnd(rest) && s <= Escaped(f) + rest && NeedsQuotes(f)
    ensures var r := FieldAt(s, o);
            r.Got? && r.cell == CellFor(f) ==>
              (o.legacy ==> Clean(f)) && |Escaped(f)| <= |s| && r.rest == s[|Escaped(f)|..]
  {
    hide Doubled, NeedsQuotes, Clean;
    if s == [] {
      StartsWith([], QUOTE);
    } else {
      assert s[0] == QUOTE && s[1..] <= Quoting(f, rest);
      hide Quoted, Quoting, Blanks;
      StartsWith(s, QUOTE);
      NoBlanks(s, o);
      assert s[0..] == s;
      WholeFieldIsRead(f, s[1..], rest, o);
      assert [] + Slashes(0) + f == f;
      assert |Doubled(f)| < |s[1..]| ==> s[1..][|Doubled(f)| + 1..] == s[|Escaped(f)|..];
    }
  }

  /** For either kind of reader. */
  lemma WholeFieldIsRead(f: seq<byte>, s: seq<byte>, rest: seq<byte>, o: Options)
    requires Matching(o) && FieldEnd(rest) && s <= Quoting(f, rest)
    ensures Says(Quoted(s, [], false, o), [], 0, f) ==>
              (o.legacy ==> Clean(f)) && |Doubled(f)| < |s| && Quoted(s, [], false, o).rest == s[|Doubled(f)| + 1..]
  {
    hide Quoted, Clean, Says, Quoting;
    if o.legacy {
      OnlyCleanIsRead(f, 0, s, rest, [], false, o);
    } else {
      PlainIsRead(f, s, rest, [], false, o);
    }
  }

  lemma {:induction false} PlainIsRead(g: seq<byte>, s: seq<byte>, rest: seq<byte>, out: seq<byte>, escaped: bool,
                                       o: Options)
    requires Matching(o) && !o.legacy && FieldEnd(rest) && s <= Quoting(g, rest)
    ensures var r := Quoted(s, out, escaped, o); Says(r, out, 0, g) ==>
                                                 |Doubled(g)| < |s| && r.rest == s[|Doubled(g)| + 1..]
    decreases |s|
  {
    hide Quoting, Says;
    if s == [] {
      assert !Says(Quoted(s, out, escaped, o), out, 0, g) by { NothingRead(out, escaped, o, 0, g); NeverOpen(out,
             escaped, o, g); }
    } else if g == [] {
      NoQuoting(rest);
      NothingSaid(s, out, escaped, rest, o, 0);
    } else {
      QuotingRest(g, rest);
      QuotingFirst(g, rest);
      hide Quoted;
      if g[0] != QUOTE {
        assert s[1..] <= Quoting(g[1..], rest);
        PlainByte(s, out, escaped, o);
        PlainIsRead(g[1..], s[1..], rest, out + [g[0]], escaped, o);
        NextSaid(s[1..], out, g[0], escaped, o, 0, g);
        assert |Doubled(g[1..])| + 1 <= |s[1..]| ==> s[1..][|Doubled(g[1..])| + 1..] == s[|Doubled(g)| + 1..];
      } else if |s| == 1 {
        LoneQuote(s, out, escaped, o, 0, g);
      } else {
        assert s[2..] <= Quoting(g[1..], rest);
        LongOrTwo(s, out, escaped, o);
        TooLongSays(out, 0, g);
        PlainIsRead(g[1..], s[2..], rest, out + [QUOTE], true, o);
        NextSaid(s[2..], out, QUOTE, true, o, 0, g);
        assert |Doubled(g[1..])| + 1 <= |s[2..]| ==> s[2..][|Doubled(g[1..])| + 1..] == s[|Doubled(g)| + 1..];
      }
    }
  }

  lemma NeverOpen(out: seq<byte>, escaped: bool, o: Options, g: seq<byte>)
    ensures !Says(Quoted([], out, escaped, o), out, 0, g)
  {
  }

  lemma PlainByte(s: seq<byte>, out: seq<byte>, escaped: bool, o: Options)
    requires Matching(o) && !o.legacy && s != [] && s[0] != QUOTE
    ensures Quoted(s, out, escaped, o) == Quoted(s[1..], out + [s[0]], escaped, o)
  {
    StartsWith(s, QUOTE);
  }

  /** An unquoted field, or its beginning, is read up to its end at most. */
  lemma PlainFieldMeans(f: seq<byte>, s: seq<byte>, rest: seq<byte>, o: Options)
    requires Matching(o) && FieldEnd(rest) && s <= f + rest && !NeedsQuotes(f)
    ensures var r := FieldAt(s, o); r.Got? ==> |r.cell.text| <= |f|
                                               && (r.cell.text == f ==> |f| <= |s| && r.rest == s[|f|..])
  {
    var n := if |s| <= |f| then |s| else |f|;
    var front, back := s[..n], s[n..];
    assert front == f[..n] && front + back == s;
    assert FieldEnd(back) by {
      assert |s| > |f| ==> back[0] == rest[0];
    }
    PlainStart(f, n);
    hide NeedsQuotes, Quoted, Blanks, ToDelimiter;
    BlanksOfPlain(front, back, o);
    PlainDelimiter(front, back);
  }

  lemma PlainStart(f: seq<byte>, n: nat)
    requires !NeedsQuotes(f) && n <= |f|
    ensures !NeedsQuotes(f[..n])
  {
    forall i | 0 <= i < n ensures !Special(f[..n][i]) {
      assert f[..n][i] == f[i];
    }
  }

  /** The cells of a row, read from its beginning, show that the row is legible. */
  lemma {:induction false} RowMeans(fields: seq<seq<byte>>, s: seq<byte>, o: Options)
    requires Matching(o) && fields != [] && s <= RowBody(fields)
    ensures ParseFields(s, o) == Fine(Some(CellsFor(fields))) ==> Legible(fields, o)
    decreases |fields|
  {
    hide FieldAt, Escaped, CellFor, LegibleField;
    var rest := if |fields| == 1 then [] else [COMMA] + RowBody(fields[1..]);
    assert RowBody(fields) == Escaped(fields[0]) + rest by {
      assert Escaped(fields[0]) + [] == Escaped(fields[0]);
    }
    FieldMeans(fields[0], s, rest, o);
    if ParseFields(s, o) == Fine(Some(CellsFor(fields))) {
      var r := FieldAt(s, o);
      assert r.Got? && CellsFor(fields)[0] == CellFor(fields[0]);
      if |fields| > 1 {
        MoreCells(fields, r, o);
        assert r.rest <= rest && r.rest[1..] <= RowBody(fields[1..]);
        RowMeans(fields[1..], r.rest[1..], o);
        assert forall i | 0 < i < |fields| :: fields[i] == fields[1..][i - 1];
      }
    }
  }

  lemma MoreCells(fields: seq<seq<byte>>, r: FieldRead, o: Options)
    requires Matching(o) && |fields| > 1 && r.Got? && (r.rest == [] || o.delimiter <= r.rest)
    requires (if r.rest == [] then Fine(Some([r.cell])) else Prefixed([r.cell], ParseFields(r.rest[1..], o)))
             == Fine(Some(CellsFor(fields)))
    ensures r.rest != [] && ParseFields(r.rest[1..], o) == Fine(Some(CellsFor(fields[1..])))
  {
    hide ParseFields, CellFor;
    assert CellsFor(fields) == [CellFor(fields[0])] + CellsFor(fields[1..]);
    assert CellsFor(fields[1..]) == [CellFor(fields[1])] + CellsFor(fields[1..][1..]);
    assert |CellsFor(fields)| >= 2;
    if r.rest != [] {
      var more := ParseFields(r.rest[1..], o);
      assert more.Fine? && more.value.Some?;
      assert ([r.cell] + more.value.value)[1..] == more.value.value;
      assert CellsFor(fields)[1..] == CellsFor(fields[1..]);
    }
  }

  /** The first cell is read up to the end of the first field at most. */
  lemma FirstCellIsShort(fields: seq<seq<byte>>, s: seq<byte>, o: Options)
    requires Matching(o) && fields != [] && s <= RowBody(fields) && !NeedsQuotes(fields[0])
    ensures var parsed := ParseFields(s, o);
            parsed.Fine? && parsed.value.Some? ==> parsed.value.value != []
                                                   && |parsed.value.value[0].text| <= |fields[0]|
  {
    hide FieldAt, NeedsQuotes;
    var rest := if |fields| == 1 then [] else [COMMA] + RowBody(fields[1..]);
    assert RowBody(fields) == fields[0] + rest;
    PlainFieldMeans(fields[0], s, rest, o);
  }

  /** The lines of a row are not blank. */
  lemma LineIsNotBlank(fields: seq<seq<byte>>, k: nat)
    requires fields != [] && fields != [[]] && 0 < k <= |Row(fields)|
    ensures !BlankLine(Row(fields)[..k])
  {
    hide RowBody;
    RowEnds(fields);
    assert Row(fields)[..k][0] == RowBody(fields)[0];
  }

  /** Whatever record comes from a row is read from the row's beginning. */
  ghost predicate FromRow(next: Next, fields: seq<seq<byte>>, o: Options) {
    next.Rec? ==> exists k :: 0 <= k <= |RowBody(fields)| && ParseFields(RowBody(fields)[..k], o)
                              == Fine(Some(next.cells))
  }

  lemma LineIsFromRow(fields: seq<seq<byte>>, k: nat, o: Options)
    requires 0 < k <= |Row(fields)| && Terminator(Row(fields)[k - 1])
    ensures var n := BodyLength(Row(fields)[..k]); n <= |RowBody(fields)|
                                                   && Parse(Row(fields)[..k], o) == ParseFields(RowBody(fields)[..n], o)
  {
    hide ParseFields, RowBody;
    var raw := Row(fields)[..k];
    BodyEnds(raw);
    assert raw[..BodyLength(raw)] == RowBody(fields)[..BodyLength(raw)];
  }

  lemma {:induction false} RecordIsFromRow(fields: seq<seq<byte>>, m: nat, place: Place, line: nat, o: Options)
    requires Matching(o) && fields != [] && fields != [[]] && m < |Row(fields)| <= o.recordLimit
    requires place.first ==> m == 0 && !StartsWithMark(fields)
    ensures FromRow(NextFrom(Row(fields)[..m], Row(fields)[m..], place, line, false, o), fields, o)
    decreases |Row(fields)| - m
  {
    hide NextFrom, Parse, ParseFields, ValidUtf8, Row, BlankLine;
    var row := Row(fields);
    RowLast(fields);
    var k := RowLine(row, m, [], place, line, false, o);
    assert row[m..] + [] == row[m..] && row[k..] + [] == row[k..];
    LineIsNotBlank(fields, k);
    LineIsFromRow(fields, k, o);
    if Parse(row[..k], o) == Fine(None) {
      if k == |row| {
        assert row[..k] == row;
        AfterLine(fields, Place(false, place.line + 1), line, o);
      } else {
        RecordIsFromRow(fields, k, Place(false, place.line + 1), line, o);
      }
    }
  }

  /** A record still open behind the last line stays so. */
  lemma AfterLine(fields: seq<seq<byte>>, place: Place, line: nat, o: Options)
    requires Parse(Row(fields), o) == Fine(None)
    ensures NextFrom(Row(fields), [], place, line, false, o) == Fail(Unclosed(line))
  {
    hide Parse, RowBody;
    RowLast(fields);
    LineDecides(Row(fields), [], place, line, false, o);
  }

  lemma MarkedIsFromRow(fields: seq<seq<byte>>, fields': seq<seq<byte>>, line: nat, o: Options)
    requires Matching(o) && fields' != [] && fields' != [[]]
    requires Row(fields) == BYTE_ORDER_MARK + Row(fields') && |Row(fields)| <= o.recordLimit
    ensures FromRow(NextRecord(Row(fields), Place(true, line), false, o), fields', o)
  {
    hide NextFrom, Parse, ParseFields, ValidUtf8, Row, BlankLine;
    var row' := Row(fields');
    RowLast(fields');
    var k := MarkedLine(Row(fields), row', [], line, false, o);
    assert Row(fields) + [] == Row(fields) && row'[k..] + [] == row'[k..];
    LineIsNotBlank(fields', k);
    LineIsFromRow(fields', k, o);
    if Parse(row'[..k], o) == Fine(None) {
      if k == |row'| {
        assert row'[..k] == row';
        AfterLine(fields', Place(false, line + 1), line + 1, o);
      } else {
        RecordIsFromRow(fields', k, Place(false, line + 1), line + 1, o);
      }
    }
  }

  lemma OnlyLegible(next: Next, fields: seq<seq<byte>>, o: Options)
    requires Matching(o) && fields != [] && FromRow(next, fields, o)
    ensures next.Rec? && next.cells == CellsFor(fields) ==> Legible(fields, o)
  {
    hide ParseFields, RowBody, CellsFor, Legible;
    if next.Rec? {
      var k :| 0 <= k <= |RowBody(fields)| && ParseFields(RowBody(fields)[..k], o) == Fine(Some(next.cells));
      RowMeans(fields, RowBody(fields)[..k], o);
    }
  }

  /** Without its mark the first field is shorter. */
  lemma MarkIsMissed(next: Next, fields: seq<seq<byte>>, fields': seq<seq<byte>>, o: Options)
    requires Matching(o) && fields != [] && fields' != [] && FromRow(next, fields', o) && !NeedsQuotes(fields'[0])
    requires |fields'[0]| < |fields[0]|
    ensures !(next.Rec? && next.cells == CellsFor(fields))
  {
    hide ParseFields, RowBody, NeedsQuotes;
    if next.Rec? {
      var k :| 0 <= k <= |RowBody(fields')| && ParseFields(RowBody(fields')[..k], o) == Fine(Some(next.cells));
      FirstCellIsShort(fields', RowBody(fields')[..k], o);
      assert CellsFor(fields)[0].text == fields[0];
    }
  }

  lemma FirstRecord(s: seq<byte>, place: Place, cells: seq<Cell>, o: Options)
    ensures var (records, error) := AllRecords(s, place, false, o);
            var next := NextRecord(s, place, false, o);
            Cells(records) == [cells] ==> next.Rec? && next.cells == cells
  {
    hide NextFrom;
    AllStep(s, place, false, o);
    var next := NextRecord(s, place, false, o);
    if next.Rec? {
      var records := AllRecords(s, place, false, o).0;
      assert Cells(records)[0] == next.cells;
    }
  }

  /** Exactly the rows that read back: not a single empty field, no byte order mark, outside quotes, in
      front of the first record of the stream, and, for a reader with backslash escapes, none in a quoted
      field. */
  lemma RowReadsBackExactly(fields: seq<seq<byte>>, place: Place, o: Options)
    requires Matching(o) && Printable(fields, o) && |Row(fields)| <= o.recordLimit
    ensures var (records, error) := AllRecords(Row(fields), place, false, o);
            Cells(records) == [CellsFor(fields)] && error == None <==>
            fields != [[]] && !(place.first && StartsWithMark(fields)) && Legible(fields, o)
  {
    hide NextFrom, AllRecords, Row, CellsFor, StartsWithMark, Printable, Legible, FromRow, NeedsQuotes;
    RowLast(fields);
    SomeField(fields, o);
    var next := NextRecord(Row(fields), place, false, o);
    FirstRecord(Row(fields), place, CellsFor(fields), o);
    if fields == [[]] {
      BlankRowsAreSkipped(fields, place, o);
    } else if place.first && StartsWithMark(fields) {
      MarkedField(fields, o);
      var fields' := [fields[0][3..]] + fields[1..];
      if fields' == [[]] {
        OnlyAMark(fields, place, o);
      } else {
        MarkInField(fields);
        MarkedIsFromRow(fields, fields', place.line, o);
        MarkIsMissed(next, fields, fields', o);
      }
    } else if Legible(fields, o) {
      RowIsRead(fields, 0, [], place, place.line + 1, false, o);
      assert Row(fields)[..0] == [] && Row(fields)[0..] + [] == Row(fields);
      OneRecord(next, Row(fields), place, o);
    } else {
      RecordIsFromRow(fields, 0, place, place.line + 1, o);
      assert Row(fields)[..0] == [] && Row(fields)[0..] == Row(fields);
      OnlyLegible(next, fields, o);
    }
  }

  lemma SomeField(fields: seq<seq<byte>>, o: Options)
    requires Printable(fields, o)
    ensures fields != []
  {
  }

  /** A stream that is a mark and a line end has no record. */
  lemma OnlyAMark(fields: seq<seq<byte>>, place: Place, o: Options)
    requires Matching(o) && place.first && Row(fields) == BYTE_ORDER_MARK + Row([[]]) && |Row(fields)| <= o.recordLimit
    ensures AllRecords(Row(fields), place, false, o) == ([], None)
  {
    hide NextFrom, TakeLine, Parse;
    var row := BYTE_ORDER_MARK + [LF];
    assert Row([[]]) == [LF];
    RowLast(fields);
    LineOfRow(row, 0, [], place.line + 1, false, o);
    assert row[0..] + [] == row && row[..0] == [];
    var n := TakeLine(row, 0, place.line + 1, false, o).value;
    MarkedRow(row, [LF], n);
    LineDecides([], row, place, place.line + 1, false, o);
    assert [] + row[..n] == row[..n] && [LF][..1] == [LF] && row[n..] == [];
    NothingToRead(Place(false, place.line + 1), o);
    AllStep(row, place, false, o);
  }

  /** For instance: a backslash in front of a doubled quote takes the first of the two, the second closes
      nothing, and the stream ends inside the field. */
  lemma BackslashesAreNotKept(place: Place, o: Options)
    requires Matching(o) && o.legacy && o.limit >= 2 && o.recordLimit >= 6
    ensures var field: seq<byte> := [BACKSLASH, QUOTE];
            Printable([field], o) && AllRecords(Row([field]), place, false, o) == ([], Some(Unclosed(place.line + 1)))
  {
    hide *;
    OpenRow(o);
    TwoBytesAreUtf8(o);
    SixthIsBreak(Row([[BACKSLASH, QUOTE]]), place.line + 1, o);
    OpenRowFails([[BACKSLASH, QUOTE]], place, o);
  }

  lemma OpenRow(o: Options)
    requires Matching(o) && o.legacy && o.limit >= 2
    ensures var row := Row([[BACKSLASH, QUOTE]]);
            && row == [QUOTE, BACKSLASH, QUOTE, QUOTE, QUOTE] + [LF] && |row| == 6 && Parse(row, o) == Fine(None)
            && !(BYTE_ORDER_MARK <= row)
  {
    EscapedQuoteIsOpen(o);
    hide ParseFields, RowBody;
    var row := Row([[BACKSLASH, QUOTE]]);
    assert row[..BodyLength(row)] == RowBody([[BACKSLASH, QUOTE]]);
    assert row[0] == QUOTE;
  }

  lemma SixthIsBreak(row: seq<byte>, line: nat, o: Options)
    requires row == [QUOTE, BACKSLASH, QUOTE, QUOTE, QUOTE] + [LF] && o.recordLimit >= 6
    ensures TakeLine(row, 0, line, false, o) == Fine(6)
  {
    assert forall k | 0 <= k < 5 :: !Terminator(row[k]);
    FirstBreak(row, 5);
    assert ToTerminator(row) == 5;
    hide ToTerminator;
  }

  lemma TwoBytesAreUtf8(o: Options)
    requires o.limit >= 2
    ensures Printable([[BACKSLASH, QUOTE]], o)
  {
    AsciiIsUtf8(BACKSLASH);
    AsciiIsUtf8(QUOTE);
    ValidConcat([BACKSLASH], [QUOTE]);
    hide ValidUtf8;
    assert [BACKSLASH] + [QUOTE] == [BACKSLASH, QUOTE];
  }

  /** A row of one line that is still open at its end is an error. */
  lemma OpenRowFails(fields: seq<seq<byte>>, place: Place, o: Options)
    requires Matching(o) && fields != [] && fields != [[]] && !(BYTE_ORDER_MARK <= Row(fields))
             && Parse(Row(fields), o) == Fine(None)
    requires TakeLine(Row(fields), 0, place.line + 1, false, o) == Fine(|Row(fields)|)
    ensures AllRecords(Row(fields), place, false, o) == ([], Some(Unclosed(place.line + 1)))
  {
    hide NextFrom, TakeLine, Parse, Row, BlankLine;
    var row := Row(fields);
    RowNotEmpty(fields);
    AllStep(row, place, false, o);
    LineDecides([], row, place, place.line + 1, false, o);
    assert row[..|row|] == row && row[|row|..] == [] && [] + row == row;
    LineIsNotBlank(fields, |row|);
    AfterLine(fields, Place(false, place.line + 1), place.line + 1, o);
  }

  lemma EscapedQuoteIsOpen(o: Options)
    requires Matching(o) && o.legacy && o.limit >= 2
    ensures var field: seq<byte> := [BACKSLASH, QUOTE];
            RowBody([field]) == [QUOTE, BACKSLASH, QUOTE, QUOTE, QUOTE]
                && ParseFields(RowBody([field]), o) == Fine(None)
  {
    var field: seq<byte> := [BACKSLASH, QUOTE];
    assert Special(field[1]);
    assert field[1..] == [QUOTE] && [QUOTE][1..] == [];
    assert Doubled([QUOTE]) == [QUOTE, QUOTE];
    var s: seq<byte> := [QUOTE, BACKSLASH, QUOTE, QUOTE, QUOTE];
    assert RowBody([field]) == s;
    NoBlanks(s, o);
    assert s[0..] == s && s[1..] == [BACKSLASH, QUOTE, QUOTE, QUOTE];
    StartsWith(s, QUOTE);
    StartsWith(s[1..], QUOTE);
    assert s[1..][1..] == [QUOTE, QUOTE, QUOTE];
    StartsWith(s[1..][1..], QUOTE);
    assert s[1..][2..] == [QUOTE, QUOTE];
    assert [QUOTE, QUOTE][1..] == [QUOTE];
    StartsWith([QUOTE, QUOTE], QUOTE);
    StartsWith([QUOTE], QUOTE);
    assert Quoted([QUOTE, QUOTE], [] + [QUOTE], true, o) == Quoted([], [] + [QUOTE] + [QUOTE], true, o);
  }
}
