/** The streaming CSV lexer (`csv.rs`): a buffered fast path and a line-by-line path over an input that
    arrives in arbitrary pieces. */
module CsvReading {
  import opened Bytes
  import opened CsvFormat
  import opened Results
  import opened Utf8

  // ---------------------------------------------------------------- buffered input

  /** A buffered reader: reading fills the buffer with any number of bytes. */
  class BufSource {
    var buffered: seq<byte>
    var rest: seq<byte>
    // Whether the underlying input fails instead of ending.
    const fails: bool

    ghost function Stream(): seq<byte>
      reads this
    {
      buffered + rest
    }

    constructor (bytes: seq<byte>, fails: bool)
      ensures Stream() == bytes && this.fails == fails
    {
      buffered, rest, this.fails := [], bytes, fails;
    }

    method FillBuf() returns (r: Option<seq<byte>>)
      modifies this
      ensures Stream() == old(Stream())
      ensures r.None? <==> Stream() == [] && fails
      ensures r.Some? ==> r.value == buffered && (buffered == [] ==> Stream() == [])
      ensures old(buffered) != [] ==> buffered == old(buffered)
    {
      if buffered == [] {
        if rest == [] {
          return if fails then None else Some([]);
        }
        var n :| 1 <= n <= |rest|;
        buffered, rest := rest[..n], rest[n..];
      }
      return Some(buffered);
    }

    method Consume(n: nat)
      requires n <= |buffered|
      modifies this
      ensures Stream() == old(Stream())[n..] && buffered == old(buffered)[n..]
    {
      buffered := buffered[n..];
    }
  }

  // ---------------------------------------------------------------- fields

  datatype FieldText = Span(from: nat, to: nat) | Decoded(text: seq<byte>)
  datatype Field = Field(text: FieldText, quoted: bool)

  predicate FieldIn(f: Field, raw: seq<byte>) {
    f.text.Span? ==> f.text.from <= f.text.to <= |raw|
  }

  predicate FieldsIn(fields: seq<Field>, raw: seq<byte>) {
    forall i | 0 <= i < |fields| :: FieldIn(fields[i], raw)
  }

  function CellOf(f: Field, raw: seq<byte>): Cell
    requires FieldIn(f, raw)
  {
    Cell(match f.text case Span(from, to) => raw[from..to] case Decoded(text) => text, f.quoted)
  }

  function CellsOf(fields: seq<Field>, raw: seq<byte>): (cells: seq<Cell>)
    requires FieldsIn(fields, raw)
    ensures |cells| == |fields|
  {
    seq(|fields|, i requires 0 <= i < |fields| => CellOf(fields[i], raw))
  }

  lemma CellsPush(fields: seq<Field>, f: Field, raw: seq<byte>)
    requires FieldsIn(fields, raw) && FieldIn(f, raw)
    ensures FieldsIn(fields + [f], raw) && CellsOf(fields + [f], raw) == CellsOf(fields, raw) + [CellOf(f, raw)]
  {
  }

  /** Spans refer to the same bytes in a longer record. */
  lemma CellsOfLonger(fields: seq<Field>, body: seq<byte>, raw: seq<byte>)
    requires FieldsIn(fields, body) && body <= raw
    ensures FieldsIn(fields, raw) && CellsOf(fields, raw) == CellsOf(fields, body)
  {
    forall i | 0 <= i < |fields| && fields[i].text.Span? ensures CellOf(fields[i], raw) == CellOf(fields[i], body) {
      var from, to := fields[i].text.from, fields[i].text.to;
      assert raw[from..to] == raw[..|body|][from..to];
    }
  }

  /** First position of a byte from `from` on, or the end. */
  method FindByte(s: seq<byte>, from: nat, b: byte) returns (at: nat)
    requires from <= |s|
    ensures from <= at <= |s| && (at < |s| ==> s[at] == b)
    ensures forall k | from <= k < at :: s[k] != b
  {
    at := from;
    while at < |s| && s[at] != b
      invariant from <= at <= |s|
      invariant forall k | from <= k < at :: s[k] != b
    {
      at := at + 1;
    }
  }

  lemma {:induction false} DelimiterAt(s: seq<byte>, d: Mark, n: nat)
    requires n <= |s| && (n < |s| ==> d <= s[n..]) && forall k | 0 <= k < n :: !(d <= s[k..])
    ensures ToDelimiter(s, d) == n
  {
    assert s[0..] == s;
    if n > 0 {
      assert !(d <= s[0..]);
      forall k | 0 <= k <= n - 1 ensures s[1..][k..] == s[k + 1..] {
      }
      DelimiterAt(s[1..], d, n - 1);
    }
  }

  /** The next delimiter from `start` on, byte-wise or by comparing whole delimiters. */
  method FindDelimiter(s: seq<byte>, start: nat, d: Mark) returns (at: nat)
    requires start <= |s|
    ensures start <= at <= |s| && at - start == ToDelimiter(s[start..], d)
  {
    if |d| == 1 {
      at := FindByte(s, start, d[0]);
      forall k | 0 <= k < |s| - start ensures d <= s[start..][k..] <==> s[start + k] == d[0] {
        assert s[start..][k..] == s[start + k..];
        assert d == [d[0]];
      }
    } else {
      at := start;
      while at < |s| && !(d <= s[at..])
        invariant start <= at <= |s|
        invariant forall k | start <= k < at :: !(d <= s[k..])
      {
        at := at + 1;
      }
      forall k | 0 <= k <= |s| - start ensures s[start..][k..] == s[start + k..] {
      }
    }
    DelimiterAt(s[start..], d, at - start);
  }

  // ---------------------------------------------------------------- records without quotes

  ghost predicate NoQuote(s: seq<byte>, o: Options) {
    forall k | 0 <= k <= |s| :: !(o.quote <= s[k..])
  }

  lemma PlainField(s: seq<byte>, o: Options)
    requires NoQuote(s, o)
    ensures var n := ToDelimiter(s, o.delimiter);
            FieldAt(s, o) == if n > o.limit then Wrong(FieldTooLong) else Got(Cell(s[..n], false), s[n..])
  {
  }

  lemma NoQuoteFrom(s: seq<byte>, n: nat, o: Options)
    requires NoQuote(s, o) && n <= |s|
    ensures NoQuote(s[n..], o)
  {
    forall k | 0 <= k <= |s| - n ensures !(o.quote <= s[n..][k..]) {
      assert s[n..][k..] == s[n + k..];
    }
  }

  /** The result of parsing, with spans into `raw`. */
  ghost predicate ParsedAs(r: Try<Option<seq<Field>>>, raw: seq<byte>, spec: Try<Option<seq<Cell>>>) {
    match r
    case Failed(e) => spec == Failed(e)
    case Fine(None) => spec == Fine(None)
    case Fine(Some(fields)) => FieldsIn(fields, raw) && spec == Fine(Some(CellsOf(fields, raw)))
  }

  /** One more plain field of the record. */
  lemma PlainStep(raw: seq<byte>, start: nat, at: nat, fields: seq<Field>, o: Options)
    requires start <= at <= |raw| && NoQuote(raw, o) && FieldsIn(fields, raw)
             && at - start == ToDelimiter(raw[start..], o.delimiter)
    ensures var spec, rest := Prefixed(CellsOf(fields, raw), ParseFields(raw[start..], o)),
            fields + [Field(Span(start, at), false)];
            && FieldsIn(rest, raw)
            && (at - start > o.limit ==> spec == Failed(FieldTooLong))
            && (at - start <= o.limit && at == |raw| ==> spec == Fine(Some(CellsOf(rest, raw))))
            && (at - start <= o.limit && at < |raw| ==>
                  at + |o.delimiter| <= |raw| && spec == Prefixed(CellsOf(rest, raw),
                                                                  ParseFields(raw[at + |o.delimiter|..], o)))
  {
    hide FieldAt, ToDelimiter, NoQuote, CellsOf, FieldsIn;
    var s, n, f := raw[start..], at - start, Field(Span(start, at), false);
    NoQuoteFrom(raw, start, o);
    PlainField(s, o);
    CellsPush(fields, f, raw);
    assert s[..n] == raw[start..at] && s[n..] == raw[at..];
    if n <= o.limit && at < |raw| {
      assert raw[at..][|o.delimiter|..] == raw[at + |o.delimiter|..];
      PrefixedTwice(CellsOf(fields, raw), [CellOf(f, raw)], ParseFields(raw[at + |o.delimiter|..], o));
    }
  }

  /** `parse_unquoted_record`: splits a record that is known to hold no quote. */
  method ParseUnquotedRecord(raw: seq<byte>, o: Options) returns (r: Try<Option<seq<Field>>>)
    requires NoQuote(raw, o)
    ensures ParsedAs(r, raw, ParseFields(raw, o)) && r != Fine(None)
  {
    hide NoQuote, FieldAt, ParseFields, Prefixed, ToDelimiter;
    var fields := [];
    var start := 0;
    assert raw[0..] == raw;
    assert CellsOf([], raw) == [];
    PrefixedTwice([], [], ParseFields(raw, o));
    while true
      invariant start <= |raw| && FieldsIn(fields, raw)
      invariant Prefixed(CellsOf(fields, raw), ParseFields(raw[start..], o)) == ParseFields(raw, o)
      decreases |raw| - start
    {
      var at := FindDelimiter(raw, start, o.delimiter);
      PlainStep(raw, start, at, fields, o);
      if at - start > o.limit {
        return Failed(FieldTooLong);
      }
      fields := fields + [Field(Span(start, at), false)];
      if at == |raw| {
        return Fine(Some(fields));
      }
      start := at + |o.delimiter|;
    }
  }

  // ---------------------------------------------------------------- quoted fields

  datatype QuotedSpan = ClosedAt(text: FieldText, position: nat) | StillOpen | BadField(error: CsvError)

  /** What reading the quoted field at `textStart` must give. */
  ghost predicate QuotedAs(r: QuotedSpan, body: seq<byte>, textStart: nat, spec: QuotedField) {
    match spec
    case Bad(e) => r == BadField(e)
    case Open => r == StillOpen
    case Closed(text, escaped, rest) =>
      if escaped && !ValidUtf8(text) then r == BadField(BadUtf8)
      else
        && r.ClosedAt? && r.position <= |body| && rest == body[r.position..]
        && FieldIn(Field(r.text, true), body) && CellOf(Field(r.text, true), body) == Cell(text, true)
  }

  /** Text without quotes is taken over as it is. */
  lemma {:induction false} SkipPlain(s: seq<byte>, out: seq<byte>, escaped: bool, k: nat, o: Options)
    requires !o.legacy && |o.quote| == 1 && k <= |s| && forall i | 0 <= i < k :: s[i] != o.quote[0]
    ensures Quoted(s, out, escaped, o) == Quoted(s[k..], out + s[..k], escaped, o)
    decreases k
  {
    if k == 0 {
      assert s[0..] == s && out + s[..0] == out;
    } else {
      assert s[0] != o.quote[0];
      assert !(o.quote <= s);
      SkipPlain(s[1..], out + [s[0]], escaped, k - 1, o);
      assert s[1..][k - 1..] == s[k..];
      assert out + [s[0]] + s[1..][..k - 1] == out + s[..k];
    }
  }

  /** The closing quote, or a doubled one. */
  lemma AtQuote(body: seq<byte>, position: nat, out: seq<byte>, escaped: bool, o: Options)
    requires position < |body| && o.quote <= body[position..] && |out| <= o.limit
    ensures position + |o.quote| <= |body|
    ensures var after := position + |o.quote|;
            var spec := Quoted(body[position..], out, escaped, o);
            && (o.quote <= body[after..] ==>
                  after + |o.quote| <= |body| && spec == Quoted(body[after + |o.quote|..], out + o.quote, true, o))
            && (!(o.quote <= body[after..]) ==>
                  spec == if after == |body| || o.delimiter <= body[after..] then Closed(out, escaped, body[after..])
                      else Bad(AfterQuote))
  {
    var after := position + |o.quote|;
    assert body[position..][|o.quote|..] == body[after..];
    if o.quote <= body[after..] {
      assert body[after..][|o.quote|..] == body[after + |o.quote|..];
    }
  }

  /** A backslash that escapes, or any other byte. */
  lemma AtByte(body: seq<byte>, position: nat, out: seq<byte>, escaped: bool, o: Options)
    requires position < |body| && !(o.quote <= body[position..])
    ensures var spec := Quoted(body[position..], out, escaped, o);
            if o.legacy && body[position] == BACKSLASH && o.quote <= body[position + 1..] then
              position + 1 + |o.quote| <= |body| && spec == Quoted(body[position + 1 + |o.quote|..], out + o.quote,
                                                                   true, o)
            else if o.legacy && body[position] == BACKSLASH && position + 1 < |body|
                 && body[position + 1] == BACKSLASH then
              spec == if |out| + 1 > o.limit then Bad(FieldTooLong)
                  else Quoted(body[position + 2..], out + [BACKSLASH], true, o)
            else spec == Quoted(body[position + 1..], out + [body[position]], escaped, o)
  {
    var s := body[position..];
    assert s[1..] == body[position + 1..];
    if o.quote <= s[1..] {
      assert s[1 + |o.quote|..] == body[position + 1 + |o.quote|..];
    }
    if |s| >= 2 {
      assert s[2..] == body[position + 2..];
    }
  }

  /** Where `parse_record` stands inside a quoted field: `output` and the span from `span` on are its
      text so far. */
  datatype Scan = Scan(position: nat, span: nat, output: seq<byte>, escaped: bool)

  ghost predicate ScanIn(c: Scan, body: seq<byte>, textStart: nat) {
    textStart <= c.span <= c.position <= |body| && (!c.escaped ==> c.span == textStart && c.output == [])
  }

  ghost function TextOf(c: Scan, body: seq<byte>): seq<byte>
    requires c.span <= c.position <= |body|
  {
    c.output + body[c.span..c.position]
  }

  /** Reading on from here gives the field's outcome. */
  ghost predicate Scanning(spec: QuotedField, c: Scan, body: seq<byte>, textStart: nat, o: Options) {
    ScanIn(c, body, textStart) && spec == Quoted(body[c.position..], TextOf(c, body), c.escaped, o)
  }

  lemma ScanStarts(body: seq<byte>, textStart: nat, o: Options)
    requires textStart <= |body|
    ensures Scanning(Quoted(body[textStart..], [], false, o), Scan(textStart, textStart, [], false), body, textStart, o)
  {
    assert [] + body[textStart..textStart] == [];
  }

  lemma ScanResets(spec: QuotedField, body: seq<byte>, textStart: nat, position: nat, output: seq<byte>, o: Options)
    requires textStart <= position <= |body| && spec == Quoted(body[position..], output, true, o)
    ensures Scanning(spec, Scan(position, position, output, true), body, textStart, o)
  {
    assert output + body[position..position] == output;
  }

  lemma ScanAdvances(spec: QuotedField, c: Scan, body: seq<byte>, textStart: nat, at: nat, o: Options)
    requires ScanIn(c, body, textStart) && c.position <= at <= |body|
    requires spec == Quoted(body[at..], TextOf(c, body) + body[c.position..at], c.escaped, o)
    ensures Scanning(spec, c.(position := at), body, textStart, o)
  {
    assert TextOf(c, body) + body[c.position..at] == TextOf(c.(position := at), body);
  }

  /** At a quote: too long, doubled, or closing. */
  lemma ScanAtQuote(spec: QuotedField, c: Scan, body: seq<byte>, textStart: nat, o: Options)
    requires Scanning(spec, c, body, textStart, o) && c.position < |body| && o.quote <= body[c.position..]
    ensures c.span <= c.position && ScanIn(c, body, textStart)
    ensures var text, after := TextOf(c, body), c.position + |o.quote|;
            && after <= |body|
            && |text| == (if c.escaped then |c.output| + c.position - c.span else c.position - textStart)
            && (!c.escaped ==> text == body[textStart..c.position])
            && (|text| > o.limit ==> spec == Bad(FieldTooLong))
            && (|text| <= o.limit && o.quote <= body[after..] ==>
                  after + |o.quote| <= |body|
                  && Scanning(spec, Scan(after + |o.quote|, after + |o.quote|, text + o.quote, true), body, textStart,
                              o))
            && (|text| <= o.limit && !(o.quote <= body[after..]) ==>
                  spec == if after == |body| || o.delimiter <= body[after..] then
                      Closed(text, c.escaped, body[after..]) else Bad(AfterQuote))
  {
    hide Quoted;
    var text, after := TextOf(c, body), c.position + |o.quote|;
    if |text| > o.limit {
      LongAtQuote(body, c.position, text, c.escaped, o);
    } else {
      AtQuote(body, c.position, text, c.escaped, o);
      if o.quote <= body[after..] {
        ScanResets(spec, body, textStart, after + |o.quote|, text + o.quote, o);
      }
    }
  }

  /** At any other byte: an escaping backslash, or text. */
  lemma ScanAtByte(spec: QuotedField, c: Scan, body: seq<byte>, textStart: nat, o: Options)
    requires Scanning(spec, c, body, textStart, o) && c.position < |body| && !(o.quote <= body[c.position..])
    ensures ScanIn(c, body, textStart)
    ensures var text, p := TextOf(c, body), c.position;
            if o.legacy && body[p] == BACKSLASH && o.quote <= body[p + 1..] then
              p + 1 + |o.quote| <= |body|
              && Scanning(spec, Scan(p + 1 + |o.quote|, p + 1 + |o.quote|, text + o.quote, true), body, textStart, o)
            else if o.legacy && body[p] == BACKSLASH && p + 1 < |body| && body[p + 1] == BACKSLASH then
              if |text| + 1 > o.limit then spec == Bad(FieldTooLong)
              else Scanning(spec, Scan(p + 2, p + 2, text + [BACKSLASH], true), body, textStart, o)
            else Scanning(spec, c.(position := p + 1), body, textStart, o)
  {
    hide Quoted;
    var text, p := TextOf(c, body), c.position;
    AtByte(body, p, text, c.escaped, o);
    if o.legacy && body[p] == BACKSLASH && o.quote <= body[p + 1..] {
      ScanResets(spec, body, textStart, p + 1 + |o.quote|, text + o.quote, o);
    } else if o.legacy && body[p] == BACKSLASH && p + 1 < |body| && body[p + 1] == BACKSLASH {
      if |text| + 1 <= o.limit {
        ScanResets(spec, body, textStart, p + 2, text + [BACKSLASH], o);
      }
    } else {
      assert body[p..p + 1] == [body[p]];
      ScanAdvances(spec, c, body, textStart, p + 1, o);
    }
  }

  /** Up to the next quote there is only text. */
  lemma ScanSkips(spec: QuotedField, c: Scan, body: seq<byte>, textStart: nat, at: nat, o: Options)
    requires Scanning(spec, c, body, textStart, o) && c.position <= at <= |body|
    requires !o.legacy && |o.quote| == 1 && forall k | c.position <= k < at :: body[k] != o.quote[0]
    ensures Scanning(spec, c.(position := at), body, textStart, o)
  {
    hide Quoted;
    SkipTo(body, c.position, at, TextOf(c, body), c.escaped, o);
    ScanAdvances(spec, c, body, textStart, at, o);
  }

  lemma ScanEnds(spec: QuotedField, c: Scan, body: seq<byte>, textStart: nat, o: Options)
    requires Scanning(spec, c, body, textStart, o) && c.position == |body|
    ensures spec == if |c.output| + |body| - c.span > o.limit then Bad(FieldTooLong) else Open
  {
    AtEnd(body, c.position, TextOf(c, body), c.escaped, o);
  }

  lemma SimpleOutcomes(body: seq<byte>, textStart: nat)
    ensures QuotedAs(StillOpen, body, textStart, Open)
    ensures forall e :: QuotedAs(BadField(e), body, textStart, Bad(e))
  {
  }

  /** A field whose closing quote runs from `end` to `position`. */
  method CloseField(body: seq<byte>, textStart: nat, end: nat, position: nat, output: seq<byte>, escaped: bool,
                    o: Options)
    returns (r: QuotedSpan)
    requires textStart <= end <= position <= |body|
    ensures var text := if escaped then output else body[textStart..end];
            QuotedAs(r, body, textStart,
              if position == |body| || o.delimiter <= body[position..] then Closed(text, escaped, body[position..])
                  else Bad(AfterQuote))
  {
    hide ValidUtf8;
    if position < |body| && !(o.delimiter <= body[position..]) {
      return BadField(AfterQuote);
    }
    if escaped {
      return if ValidUtf8(output) then ClosedAt(Decoded(output), position) else BadField(BadUtf8);
    }
    return ClosedAt(Span(textStart, end), position);
  }

  /** The inner loop of `parse_record`: a quoted field whose text starts at `textStart`.  Text is
      copied only once an escape is met; until then the field is a span. */
  method ReadQuoted(body: seq<byte>, textStart: nat, o: Options) returns (r: QuotedSpan)
    requires textStart <= |body|
    ensures QuotedAs(r, body, textStart, Quoted(body[textStart..], [], false, o))
  {
    hide Quoted, ValidUtf8, Scanning, QuotedAs, EscapedAt;
    SimpleOutcomes(body, textStart);
    var q := |o.quote|;
    var position: nat, span: nat := textStart, textStart;
    var output: seq<byte> := [];
    var escaped := false;
    ghost var spec := Quoted(body[textStart..], [], false, o);
    ScanStarts(body, textStart, o);
    while true
      invariant ScanIn(Scan(position, span, output, escaped), body, textStart)
      invariant Scanning(spec, Scan(position, span, output, escaped), body, textStart, o)
      decreases |body| - position
    {
      ghost var c := Scan(position, span, output, escaped);
      if position >= |body| {
        ScanEnds(spec, c, body, textStart, o);
        return if |output| + |body| - span > o.limit then BadField(FieldTooLong) else StillOpen;
      }
      if o.quote <= body[position..] {
        ScanAtQuote(spec, c, body, textStart, o);
        if escaped {
          output := output + body[span..position];
        }
        if (if escaped then |output| else position - textStart) > o.limit {
          return BadField(FieldTooLong);
        }
        position := position + q;
        if o.quote <= body[position..] {
          if !escaped {
            output := output + body[textStart..position - q];
            escaped := true;
          }
          output := output + o.quote;
          position := position + q;
          span := position;
          continue;
        }
        r := CloseField(body, textStart, position - q, position, output, escaped, o);
        return;
      }
      if EscapedAt(body, position, o) {
        var taken;
        taken, output := TakeEscape(body, textStart, span, position, output, o, spec, c);
        if taken.None? {
          return BadField(FieldTooLong);
        }
        escaped, position, span := true, taken.value, taken.value;
      } else {
        position := TakeText(body, textStart, position, o, spec, c);
      }
    }
  }

  /** A backslash that stands for the quote or the backslash behind it. */
  predicate EscapedAt(body: seq<byte>, position: nat, o: Options)
    requires position < |body|
  {
    && o.legacy && body[position] == BACKSLASH
    && (o.quote <= body[position + 1..] || (position + 1 < |body| && body[position + 1] == BACKSLASH))
  }

  /** Takes the escaped quote or backslash into `output`; returns where the field goes on, if it is not too long. */
  method TakeEscape(body: seq<byte>, textStart: nat, span: nat, position: nat, output: seq<byte>, o: Options,
                    ghost spec: QuotedField, ghost c: Scan)
    returns (taken: Option<nat>, output': seq<byte>)
    requires Scanning(spec, c, body, textStart, o) && c.position == position && c.span == span && c.output == output
    requires position < |body| && !(o.quote <= body[position..]) && EscapedAt(body, position, o)
    ensures taken.None? ==> spec == Bad(FieldTooLong)
    ensures taken.Some? ==> position < taken.value <= |body|
                            && Scanning(spec, Scan(taken.value, taken.value, output', true), body, textStart, o)
                            && ScanIn(Scan(taken.value, taken.value, output', true), body, textStart)
  {
    hide Quoted;
    ScanAtByte(spec, c, body, textStart, o);
    output' := output + body[span..position];
    if o.quote <= body[position + 1..] {
      output' := output' + o.quote;
      return Some(position + 1 + |o.quote|), output';
    }
    output' := output' + [BACKSLASH];
    return if |output'| > o.limit then None else Some(position + 2), output';
  }

  /** Passes over text: up to the next quote at once when nothing else can end it. */
  method TakeText(body: seq<byte>, textStart: nat, position: nat, o: Options, ghost spec: QuotedField, ghost c: Scan)
    returns (at: nat)
    requires Scanning(spec, c, body, textStart, o) && c.position == position
    requires position < |body| && !(o.quote <= body[position..]) && !EscapedAt(body, position, o)
    ensures position < at <= |body| && Scanning(spec, c.(position := at), body, textStart, o)
    ensures ScanIn(c.(position := at), body, textStart)
  {
    hide Quoted;
    if |o.quote| == 1 && !o.legacy {
      NotQuote(body, position, o);
      at := FindByte(body, position, o.quote[0]);
      ScanSkips(spec, c, body, textStart, at, o);
    } else {
      ScanAtByte(spec, c, body, textStart, o);
      at := position + 1;
    }
  }

  lemma AtEnd(body: seq<byte>, position: nat, out: seq<byte>, escaped: bool, o: Options)
    requires position == |body|
    ensures Quoted(body[position..], out, escaped, o) == if |out| > o.limit then Bad(FieldTooLong) else Open
  {
  }

  lemma LongAtQuote(body: seq<byte>, position: nat, out: seq<byte>, escaped: bool, o: Options)
    requires position < |body| && o.quote <= body[position..] && |out| > o.limit
    ensures Quoted(body[position..], out, escaped, o) == Bad(FieldTooLong)
  {
  }

  lemma NotQuote(body: seq<byte>, position: nat, o: Options)
    requires |o.quote| == 1 && position < |body| && !(o.quote <= body[position..])
    ensures body[position] != o.quote[0]
  {
  }

  lemma SkipTo(body: seq<byte>, position: nat, at: nat, out: seq<byte>, escaped: bool, o: Options)
    requires !o.legacy && |o.quote| == 1 && position <= at <= |body|
             && forall k | position <= k < at :: body[k] != o.quote[0]
    ensures Quoted(body[position..], out, escaped, o) == Quoted(body[at..], out + body[position..at], escaped, o)
  {
    SkipPlain(body[position..], out, escaped, at - position, o);
    assert body[position..][at - position..] == body[at..] && body[position..][..at - position] == body[position..at];
  }

  // ---------------------------------------------------------------- a whole record

  lemma {:induction false} BlanksFrom(s: seq<byte>, n: nat, o: Options)
    requires o.trim && n <= |s| && forall k | 0 <= k < n :: (s[k] == SPACE || s[k] == TAB) && !(o.delimiter <= s[k..])
    ensures Blanks(s, o) == n + Blanks(s[n..], o)
  {
    assert s[0..] == s;
    if n > 0 {
      assert !(o.delimiter <= s[0..]);
      forall k | 0 <= k < n ensures s[1..][k..] == s[k + 1..] {
      }
      BlanksFrom(s[1..], n - 1, o);
      assert s[1..][n - 1..] == s[n..];
    }
  }

  /** Skips blanks in front of a possible quote. */
  method SkipBlanks(body: seq<byte>, start: nat, o: Options) returns (position: nat)
    requires start <= |body|
    ensures start <= position <= |body| && position - start == Blanks(body[start..], o)
  {
    position := start;
    if o.trim {
      while position < |body| && (body[position] == SPACE || body[position] == TAB)
          && !(o.delimiter <= body[position..])
        invariant start <= position <= |body|
        invariant forall k | start <= k < position :: (body[k] == SPACE || body[k] == TAB)
                                                      && !(o.delimiter <= body[k..])
      {
        position := position + 1;
      }
      forall k | 0 <= k <= position - start ensures body[start..][k..] == body[start + k..] {
      }
      BlanksFrom(body[start..], position - start, o);
    }
  }

  datatype FieldSpan = FieldDone(field: Field, position: nat) | FieldOpen | FieldBad(error: CsvError)

  /** What reading the field at `start` must give. */
  ghost predicate FieldAs(r: FieldSpan, body: seq<byte>, spec: FieldRead) {
    match spec
    case Wrong(e) => r == FieldBad(e)
    case NotClosed => r == FieldOpen
    case Got(cell, rest) =>
      && r.FieldDone? && r.position <= |body| && rest == body[r.position..]
      && FieldIn(r.field, body) && CellOf(r.field, body) == cell
  }

  function FieldOf(quoted: QuotedSpan): FieldSpan {
    match quoted
    case BadField(e) => FieldBad(e)
    case StillOpen => FieldOpen
    case ClosedAt(text, end) => FieldDone(Field(text, true), end)
  }

  lemma QuotedFieldIs(body: seq<byte>, start: nat, position: nat, quoted: QuotedSpan, o: Options)
    requires start <= |body| && position == start + Blanks(body[start..], o) && o.quote <= body[position..]
    requires QuotedAs(quoted, body, position + |o.quote|, Quoted(body[position + |o.quote|..], [], false, o))
    ensures FieldAs(FieldOf(quoted), body, FieldAt(body[start..], o))
  {
    hide Quoted, Blanks, ValidUtf8, FieldIn, CellOf;
    assert body[start..][position - start..] == body[position..];
    assert body[position..][|o.quote|..] == body[position + |o.quote|..];
  }

  lemma PlainFieldIs(body: seq<byte>, start: nat, position: nat, end: nat, o: Options)
    requires start <= |body| && position == start + Blanks(body[start..], o) && !(o.quote <= body[position..])
    requires start <= end <= |body| && end - start == ToDelimiter(body[start..], o.delimiter)
    ensures FieldAs(if end - start > o.limit then FieldBad(FieldTooLong)
                    else FieldDone(Field(Span(start, end), false), end), body, FieldAt(body[start..], o))
  {
    hide Quoted, Blanks, ToDelimiter;
    assert body[start..][position - start..] == body[position..];
    assert body[start..][..end - start] == body[start..end] && body[start..][end - start..] == body[end..];
  }

  /** One field of `parse_record`. */
  method ReadField(body: seq<byte>, start: nat, o: Options) returns (r: FieldSpan)
    requires start <= |body|
    ensures FieldAs(r, body, FieldAt(body[start..], o))
  {
    hide Quoted, ToDelimiter, Blanks, FieldAt, FieldAs, QuotedAs;
    var position := SkipBlanks(body, start, o);
    if o.quote <= body[position..] {
      var quoted := ReadQuoted(body, position + |o.quote|, o);
      QuotedFieldIs(body, start, position, quoted, o);
      return FieldOf(quoted);
    }
    var end := FindDelimiter(body, start, o.delimiter);
    PlainFieldIs(body, start, position, end, o);
    if end - start > o.limit {
      return FieldBad(FieldTooLong);
    }
    return FieldDone(Field(Span(start, end), false), end);
  }

  /** A field that fails or stays open decides the record. */
  lemma FieldStops(body: seq<byte>, start: nat, fields: seq<Field>, r: FieldSpan, o: Options)
    requires start <= |body| && FieldsIn(fields, body) && FieldAs(r, body, FieldAt(body[start..], o)) && !r.FieldDone?
    ensures Prefixed(CellsOf(fields, body), ParseFields(body[start..], o)) == if r.FieldBad? then Failed(r.error)
            else Fine(None)
  {
    hide CellsOf, FieldsIn, FieldAt;
  }

  /** One more field of a record. */
  lemma FieldStep(body: seq<byte>, start: nat, fields: seq<Field>, f: Field, at: nat, o: Options)
    requires start <= |body| && FieldsIn(fields, body) && FieldAs(FieldDone(f, at), body, FieldAt(body[start..], o))
    ensures start <= at <= |body| && FieldsIn(fields + [f], body)
    ensures var spec := Prefixed(CellsOf(fields, body), ParseFields(body[start..], o));
            if at == |body| then spec == Fine(Some(CellsOf(fields + [f], body)))
            else at + |o.delimiter| <= |body|
                 && spec == Prefixed(CellsOf(fields + [f], body), ParseFields(body[at + |o.delimiter|..], o))
  {
    var read := FieldAt(body[start..], o);
    assert |read.rest| <= |body| - start;
    hide CellsOf, FieldsIn, FieldAt;
    CellsPush(fields, f, body);
    if at < |body| {
      assert body[at..][|o.delimiter|..] == body[at + |o.delimiter|..];
      PrefixedTwice(CellsOf(fields, body), [CellOf(f, body)], ParseFields(body[at + |o.delimiter|..], o));
    }
  }

  /** `parse_record`: the fields of a record whose lines are in `raw`. */
  method ParseRecord(raw: seq<byte>, o: Options) returns (r: Try<Option<seq<Field>>>)
    ensures ParsedAs(r, raw, Parse(raw, o))
  {
    hide FieldAt, ParseFields, Prefixed, FieldAs;
    var body := raw[..BodyLength(raw)];
    var fields := [];
    var position := 0;
    assert body[0..] == body;
    assert CellsOf([], body) == [];
    PrefixedTwice([], [], ParseFields(body, o));
    while true
      invariant position <= |body| && FieldsIn(fields, body)
      invariant Prefixed(CellsOf(fields, body), ParseFields(body[position..], o)) == ParseFields(body, o)
      decreases |body| - position
    {
      var read := ReadField(body, position, o);
      match read {
        case FieldBad(e) =>
          FieldStops(body, position, fields, read, o);
          return Failed(e);
        case FieldOpen =>
          FieldStops(body, position, fields, read, o);
          return Fine(None);
        case FieldDone(field, at) =>
          FieldStep(body, position, fields, field, at, o);
          fields := fields + [field];
          if at == |body| {
            CellsOfLonger(fields, body, raw);
            return Fine(Some(fields));
          }
          position := at + |o.delimiter|;
      }
    }
  }

  // ---------------------------------------------------------------- physical lines

  lemma {:induction false} TerminatorFrom(s: seq<byte>, k: nat)
    requires k <= |s| && forall i | 0 <= i < k :: !Terminator(s[i])
    ensures ToTerminator(s) == k + ToTerminator(s[k..])
    decreases k
  {
    if k == 0 {
      assert s[0..] == s;
    } else {
      TerminatorFrom(s[1..], k - 1);
      assert s[1..][k - 1..] == s[k..];
    }
  }

  /** Bytes without a terminator are a part of the line. */
  lemma LinePrefix(s: seq<byte>, k: nat, used: nat, line: nat, fails: bool, o: Options)
    requires k <= |s| && used + k <= o.recordLimit && forall i | 0 <= i < k :: !Terminator(s[i])
    ensures var rest := TakeLine(s[k..], used + k, line, fails, o);
            TakeLine(s, used, line, fails, o) == if rest.Fine? then Fine(rest.value + k) else rest
  {
    TerminatorFrom(s, k);
    hide ToTerminator;
    var n := ToTerminator(s[k..]);
    assert k + n < |s| ==> s[k..][n] == s[k + n];
    assert k + n + 1 < |s| ==> s[k..][n + 1] == s[k + n + 1];
  }

  /** First terminator of a chunk. */
  method FindTerminator(chunk: seq<byte>) returns (n: nat)
    ensures n == ToTerminator(chunk)
  {
    n := 0;
    while n < |chunk| && !Terminator(chunk[n])
      invariant n <= |chunk| && forall i | 0 <= i < n :: !Terminator(chunk[i])
    {
      n := n + 1;
    }
    TerminatorAt(chunk, n);
  }

  lemma {:induction false} TerminatorAt(s: seq<byte>, n: nat)
    requires n <= |s| && (n < |s| ==> Terminator(s[n])) && forall i | 0 <= i < n :: !Terminator(s[i])
    ensures ToTerminator(s) == n
    decreases n
  {
    if n > 0 {
      TerminatorAt(s[1..], n - 1);
    }
  }

  lemma ChunkTerminator(s: seq<byte>, chunk: seq<byte>)
    requires chunk <= s
    ensures var n := ToTerminator(chunk);
            && (forall i | 0 <= i < n :: !Terminator(s[i]))
            && ToTerminator(s) >= n && (n < |chunk| ==> ToTerminator(s) == n && s[n] == chunk[n] && Terminator(s[n]))
  {
    var n := ToTerminator(chunk);
    forall i | 0 <= i < n ensures !Terminator(s[i]) {
      assert s[i] == chunk[i];
    }
    TerminatorFrom(s, n);
    if n < |chunk| {
      assert s[n] == chunk[n];
      TerminatorAt(s, n);
    }
  }

  /** The chunk has the end of the line. */
  lemma ChunkEndsLine(s: seq<byte>, chunk: seq<byte>, used: nat, line: nat, fails: bool, o: Options)
    requires chunk <= s && used <= o.recordLimit && ToTerminator(chunk) < |chunk|
    ensures var n, spec := ToTerminator(chunk), TakeLine(s, used, line, fails, o);
            && s[n] == chunk[n] && Terminator(s[n])
            && (used + n + 1 > o.recordLimit ==> spec == Failed(RecordTooLong(line)))
            && (used + n + 1 <= o.recordLimit ==> spec == LineTo(s, n, used, line, fails, o))
  {
    hide ToTerminator;
    ChunkTerminator(s, chunk);
  }

  /** The line goes on behind the chunk. */
  lemma ChunkInLine(s: seq<byte>, chunk: seq<byte>, used: nat, line: nat, fails: bool, o: Options)
    requires chunk != [] && chunk <= s && used <= o.recordLimit && ToTerminator(chunk) == |chunk|
    ensures var n, spec := |chunk|, TakeLine(s, used, line, fails, o);
            && (used + n > o.recordLimit ==> spec == Failed(RecordTooLong(line)))
            && (used + n <= o.recordLimit ==>
                  var rest := TakeLine(s[n..], used + n, line, fails,
                                       o); spec == if rest.Fine? then Fine(rest.value + n) else rest)
  {
    hide TakeLine, ToTerminator;
    ChunkTerminator(s, chunk);
    if used + |chunk| <= o.recordLimit {
      LinePrefix(s, |chunk|, used, line, fails, o);
    } else {
      LineTooLong(s, |chunk|, used, line, fails, o);
    }
  }

  lemma LineTooLong(s: seq<byte>, n: nat, used: nat, line: nat, fails: bool, o: Options)
    requires 0 < n <= ToTerminator(s) && used + n > o.recordLimit
    ensures TakeLine(s, used, line, fails, o) == Failed(RecordTooLong(line))
  {
  }

  /** Behind a carriage return, a line feed belongs to the same terminator. */
  method EatLineFeed(input: BufSource, output: seq<byte>, carriageReturn: bool, line: nat, o: Options)
      returns (r: Try<nat>, output': seq<byte>)
    requires |output| <= o.recordLimit
    modifies input
    ensures var s := old(input.Stream());
            r == if !carriageReturn then Fine(0)
                 else if s == [] then if input.fails then Failed(InputFailed(line)) else Fine(0)
                 else if s[0] == LF then if |output| == o.recordLimit then Failed(LineFeedTooLong(line)) else Fine(1)
                 else Fine(0)
    ensures r.Fine? ==>
              && r.value <= |old(input.Stream())| && input.Stream() == old(input.Stream())[r.value..]
              && output' == output + old(input.Stream())[..r.value] && |output'| <= o.recordLimit
  {
    output' := output;
    if carriageReturn {
      var next := input.FillBuf();
      if next.None? {
        return Failed(InputFailed(line)), output';
      }
      if next.value != [] && next.value[0] == LF {
        if |output'| == o.recordLimit {
          return Failed(LineFeedTooLong(line)), output';
        }
        output' := output' + [LF];
        input.Consume(1);
        return Fine(1), output';
      }
    }
    return Fine(0), output';
  }

  /** A line of which `total` bytes were read, in terms of what is left. */
  ghost predicate PartOfLine(s: seq<byte>, total: nat, left: seq<byte>, used: nat, line: nat, fails: bool, o: Options) {
    && total <= |s| && left == s[total..]
    && var rest := TakeLine(left, used + total, line, fails, o);
       TakeLine(s, used, line, fails, o) == Behind(rest, total)
  }

  lemma NoPartYet(s: seq<byte>, used: nat, line: nat, fails: bool, o: Options)
    ensures PartOfLine(s, 0, s, used, line, fails, o)
  {
    assert s[0..] == s;
  }

  lemma MoreOfLine(s: seq<byte>, total: nat, left: seq<byte>, n: nat, used: nat, line: nat, fails: bool, o: Options)
    requires PartOfLine(s, total, left, used, line, fails, o) && n <= |left|
    requires var rest := TakeLine(left[n..], used + total + n, line, fails, o);
             TakeLine(left, used + total, line, fails, o) == if rest.Fine? then Fine(rest.value + n) else rest
    ensures PartOfLine(s, total + n, left[n..], used, line, fails, o)
  {
    hide TakeLine;
    assert left[n..] == s[total + n..];
  }

  lemma OutputGrows(output: seq<byte>, s: seq<byte>, total: nat, n: nat)
    requires total + n <= |s|
    ensures output + s[..total] + s[total..][..n] == output + s[..total + n] && s[total..][n..] == s[total + n..]
  {
  }

  /** The line when its terminator starts at `n`. */
  function LineTo(s: seq<byte>, n: nat, used: nat, line: nat, fails: bool, o: Options): Try<nat>
    requires n < |s|
  {
    if s[n] == LF then Fine(n + 1)
    else if n + 1 == |s| then if fails then Failed(InputFailed(line)) else Fine(n + 1)
    else if s[n + 1] == LF then if used + n + 1 == o.recordLimit then Failed(LineFeedTooLong(line)) else Fine(n + 2)
    else Fine(n + 1)
  }

  /** What one fill of the buffer gives, up to and with the first byte of a terminator. */
  method ReadChunk(input: BufSource, output: seq<byte>, line: nat, o: Options)
      returns (r: Try<nat>, terminated: bool, output': seq<byte>)
    requires |output| <= o.recordLimit
    modifies input
    ensures r.Failed? ==> TakeLine(old(input.Stream()), |output|, line, input.fails, o) == r
    ensures r.Fine? ==>
              && r.value <= |old(input.Stream())| && input.Stream() == old(input.Stream())[r.value..]
              && output' == output + old(input.Stream())[..r.value] && |output'| <= o.recordLimit
    ensures r.Fine? && r.value == 0 ==> !terminated && TakeLine(old(input.Stream()), |output|, line, input.fails, o)
                                        == r
    ensures r.Fine? && terminated ==>
              && r.value > 0 && Terminator(old(input.Stream())[r.value - 1])
              && TakeLine(old(input.Stream()), |output|, line, input.fails, o)
                 == LineTo(old(input.Stream()), r.value - 1, |output|, line, input.fails, o)
    ensures r.Fine? && !terminated && r.value > 0 ==>
              TakeLine(old(input.Stream()), |output|, line, input.fails, o)
              == Behind(TakeLine(old(input.Stream())[r.value..], |output| + r.value, line, input.fails, o), r.value)
  {
    hide ToTerminator, TakeLine;
    ghost var s := input.Stream();
    terminated, output' := false, output;
    var filled := input.FillBuf();
    if filled.None? {
      EndOfInput(|output|, line, true, o);
      return Failed(InputFailed(line)), terminated, output';
    }
    var chunk := filled.value;
    if chunk == [] {
      EndOfInput(|output|, line, input.fails, o);
      return Fine(0), terminated, output';
    }
    var n := FindTerminator(chunk);
    var count := if n < |chunk| then n + 1 else n;
    if n < |chunk| {
      ChunkEndsLine(s, chunk, |output|, line, input.fails, o);
    } else {
      ChunkInLine(s, chunk, |output|, line, input.fails, o);
    }
    if |output| + count > o.recordLimit {
      return Failed(RecordTooLong(line)), terminated, output';
    }
    assert chunk[..count] == s[..count];
    terminated, output' := n < |chunk|, output + chunk[..count];
    input.Consume(count);
    return Fine(count), terminated, output';
  }

  /** One piece of a line: a chunk, and the line feed that may follow a carriage return. */
  method ReadPiece(input: BufSource, output: seq<byte>, line: nat, o: Options)
      returns (r: Try<nat>, done: bool, output': seq<byte>)
    requires |output| <= o.recordLimit
    modifies input
    ensures r.Failed? ==> TakeLine(old(input.Stream()), |output|, line, input.fails, o) == r
    ensures r.Fine? ==>
              && r.value <= |old(input.Stream())| && input.Stream() == old(input.Stream())[r.value..]
              && output' == output + old(input.Stream())[..r.value] && |output'| <= o.recordLimit
    ensures r.Fine? && done ==> TakeLine(old(input.Stream()), |output|, line, input.fails, o) == r
    ensures r.Fine? && !done ==>
              && r.value > 0
              && TakeLine(old(input.Stream()), |output|, line, input.fails, o)
                 == Behind(TakeLine(old(input.Stream())[r.value..], |output| + r.value, line, input.fails, o), r.value)
  {
    hide TakeLine;
    ghost var s := input.Stream();
    var terminated;
    r, terminated, output' := ReadChunk(input, output, line, o);
    done := r.Failed? || r.value == 0;
    if terminated && r.Fine? {
      var count := r.value;
      var eaten;
      assert output'[|output'| - 1] == s[count - 1];
      eaten, output' := EatLineFeed(input, output', output'[|output'| - 1] == CR, line, o);
      LineEnds(s, count - 1, |output|, line, input.fails, eaten, o);
      done := true;
      if eaten.Failed? {
        return eaten, done, output';
      }
      OutputGrows(output, s, count, eaten.value);
      return Fine(count + eaten.value), done, output';
    }
  }

  /** A length counted from `n` bytes further on. */
  function Behind(r: Try<nat>, n: nat): Try<nat> {
    if r.Fine? then Fine(r.value + n) else r
  }

  /** `physical_line`: appends the next line of the input to the record, whatever the pieces. */
  method PhysicalLine(input: BufSource, output: seq<byte>, line: nat, o: Options)
      returns (r: Try<nat>, output': seq<byte>)
    requires |output| <= o.recordLimit
    modifies input
    ensures r == TakeLine(old(input.Stream()), |output|, line, input.fails, o)
    ensures r.Fine? ==> r.value <= |old(input.Stream())| && input.Stream() == old(input.Stream())[r.value..]
    ensures r.Fine? ==> output' == output + old(input.Stream())[..r.value] && |output'| <= o.recordLimit
  {
    hide TakeLine, PartOfLine;
    ghost var s := input.Stream();
    var total: nat := 0;
    output' := output;
    NoPartYet(s, |output|, line, input.fails, o);
    assert output + s[..0] == output && s[0..] == s;
    while true
      invariant total <= |s| && input.Stream() == s[total..] && output' == output + s[..total]
                && |output'| <= o.recordLimit
      invariant PartOfLine(s, total, input.Stream(), |output|, line, input.fails, o)
      decreases |s| - total
    {
      ghost var left := input.Stream();
      assert |output'| == |output| + total;
      var piece, done;
      piece, done, output' := ReadPiece(input, output', line, o);
      PartSays(s, total, left, |output|, line, input.fails, o);
      if piece.Failed? {
        return piece, output';
      }
      OutputGrows(output, s, total, piece.value);
      if done {
        return Fine(total + piece.value), output';
      }
      MoreOfLine(s, total, left, piece.value, |output|, line, input.fails, o);
      total := total + piece.value;
    }
  }

  /** A terminator, and a line feed behind it, end the line. */
  lemma LineEnds(s: seq<byte>, n: nat, used: nat, line: nat, fails: bool, eaten: Try<nat>, o: Options)
    requires n < |s| && Terminator(s[n]) && used + n + 1 <= o.recordLimit
    requires TakeLine(s, used, line, fails, o) == LineTo(s, n, used, line, fails, o)
    requires eaten == if s[n] != CR then Fine(0)
                      else if s[n + 1..] == [] then if fails then Failed(InputFailed(line)) else Fine(0)
                      else if s[n + 1..][0] == LF then if used + n + 1 == o.recordLimit then
                           Failed(LineFeedTooLong(line)) else Fine(1)
                      else Fine(0)
    ensures TakeLine(s, used, line, fails, o) == if eaten.Fine? then Fine(n + 1 + eaten.value) else eaten
  {
    hide TakeLine;
  }

  lemma PartSays(s: seq<byte>, total: nat, left: seq<byte>, used: nat, line: nat, fails: bool, o: Options)
    requires PartOfLine(s, total, left, used, line, fails, o)
    ensures var rest := TakeLine(left, used + total, line, fails, o);
            TakeLine(s, used, line, fails, o) == if rest.Fine? then Fine(rest.value + total) else rest
  {
  }

  lemma EndOfInput(used: nat, line: nat, fails: bool, o: Options)
    ensures TakeLine([], used, line, fails, o) == if fails then Failed(InputFailed(line)) else Fine(0)
  {
  }

  // ---------------------------------------------------------------- the reader

  /** First quote or terminator of the buffer. */
  method FindSpecial(bytes: seq<byte>, quote: byte) returns (n: nat)
    ensures n <= |bytes| && (n < |bytes| ==> bytes[n] == quote || Terminator(bytes[n]))
    ensures forall k | 0 <= k < n :: bytes[k] != quote && !Terminator(bytes[k])
  {
    n := 0;
    while n < |bytes| && bytes[n] != quote && !Terminator(bytes[n])
      invariant n <= |bytes| && forall k | 0 <= k < n :: bytes[k] != quote && !Terminator(bytes[k])
    {
      n := n + 1;
    }
  }

  /** The fast path applies only to a line that the buffer holds completely. */
  method BufferedLine(bytes: seq<byte>, o: Options) returns (r: Option<(nat, nat)>)
    requires |o.quote| == 1
    ensures r.Some? ==> Buffered(bytes, r.value.0, r.value.1, o)
  {
    var end := FindSpecial(bytes, o.quote[0]);
    if end == |bytes| || bytes[end] == o.quote[0] {
      return None;
    }
    if bytes[end] == CR && end + 1 == |bytes| {
      return None;
    }
    var count := if bytes[end] == CR && bytes[end + 1] == LF then end + 2 else end + 1;
    if end == 0 || count > o.recordLimit {
      return None;
    }
    return Some((end, count));
  }

  ghost predicate Buffered(bytes: seq<byte>, end: nat, count: nat, o: Options) {
    && |o.quote| == 1 && 0 < end < count <= |bytes| && count <= o.recordLimit
    && (forall k | 0 <= k < end :: bytes[k] != o.quote[0] && !Terminator(bytes[k]))
    && Terminator(bytes[end]) && (bytes[end] == CR ==> end + 1 < |bytes|)
    && count == if bytes[end] == CR && bytes[end + 1] == LF then end + 2 else end + 1
  }

  /** A buffered line is the next physical line, and its text has no quote. */
  lemma BufferedIsLine(s: seq<byte>, bytes: seq<byte>, end: nat, count: nat, line: nat, fails: bool, o: Options)
    requires bytes <= s && Buffered(bytes, end, count, o)
    ensures TakeLine(s, 0, line, fails, o) == Fine(count) && s[..count] == bytes[..count]
    ensures !BlankLine(bytes[..count]) && BodyLength(bytes[..count]) == end && bytes[..count][..end] == bytes[..end]
    ensures NoQuote(bytes[..end], o)
  {
    assert forall k | 0 <= k < |bytes| :: s[k] == bytes[k];
    TerminatorAt(s, end);
    hide ToTerminator;
    assert s[..count] == bytes[..count] && bytes[..count][..end] == bytes[..end];
    var body := bytes[..end];
    forall k | 0 <= k <= |body| ensures !(o.quote <= body[k..]) {
      if k < |body| {
        assert body[k..][0] == bytes[k];
      }
    }
  }

  /** The record of a buffered line. */
  lemma BufferedRecord(s: seq<byte>, bytes: seq<byte>, end: nat, count: nat, place: Place, fails: bool, o: Options)
    requires bytes <= s && Buffered(bytes, end, count, o) && !place.first
    ensures var next := NextRecord(s, place, fails, o);
            match ParseFields(bytes[..end], o)
            case Failed(e) => next == Fail(e)
            case Fine(None) => true
            case Fine(Some(cells)) => next == Complete(place.line + 1, bytes[..count], cells,
                                                       Place(false, place.line + 1), s[count..])
  {
    hide TakeLine, ParseFields, BlankLine, BodyLength;
    BufferedIsLine(s, bytes, end, count, place.line + 1, fails, o);
    assert [] + s[..count] == s[..count];
  }

  class CsvReader {
    const input: BufSource
    const o: Options
    var raw: seq<byte>
    var fields: seq<Field>
    var first: bool
    // Bytes of the buffer that the previous record still borrows.
    var pending: nat
    var line: nat
    var recordLine: nat

    ghost predicate Valid()
      reads this, input
    {
      pending <= |input.buffered|
    }

    /** Everything behind the previous record. */
    ghost function Remaining(): seq<byte>
      requires Valid()
      reads this, input
    {
      input.Stream()[pending..]
    }

    constructor (input: BufSource, o: Options)
      ensures Valid() && this.input == input && this.o == o && Remaining() == input.Stream() && first && line == 0
    {
      this.input, this.o := input, o;
      raw, fields, first, pending, line, recordLine := [], [], true, 0, 0, 0;
    }

    /** The outcome agrees with the specification, and the reader stands behind the record. */
    ghost predicate Agrees(r: Try<Option<(nat, seq<byte>, seq<Field>)>>, spec: Next)
      reads this, input
    {
      match spec
      case End => r == Fine(None)
      case Fail(e) => r == Failed(e)
      case Rec(recordLine, cells, place, rest) =>
        && Valid() && Remaining() == rest && first == place.first && line == place.line
        && r.Fine? && r.value.Some?
        && var (number, text, fields) := r.value.value;
        number == recordLine && FieldsIn(fields, text) && CellsOf(fields, text) == cells
    }

    /** `next_borrowed`: the next record, whether it lies in the buffer or has to be assembled. */
    method NextBorrowed() returns (r: Try<Option<(nat, seq<byte>, seq<Field>)>>)
      requires Valid()
      modifies this, input
      ensures Agrees(r, NextRecord(old(Remaining()), Place(old(first), old(line)), input.fails, o))
    {
      hide NextFrom, TakeLine, Buffered, ParseFields, ValidUtf8, BlankLine, BodyLength;
      ghost var s, place := Remaining(), Place(first, line);
      input.Consume(pending);
      pending := 0;
      raw := [];
      recordLine := line + 1;
      assert input.Stream()[0..] == input.Stream();
      if !first && |o.quote| == 1 {
        var filled := input.FillBuf();
        if filled.None? {
          FailsAtEnd(place, o);
          return Failed(InputFailed(recordLine));
        }
        var found := BufferedLine(filled.value, o);
        if found.Some? {
          r := TakeBuffered(filled.value, found.value.0, found.value.1, s, place);
          return;
        }
      }
      r := ReadLines(s, place);
    }

    lemma FailsAtEnd(place: Place, o: Options)
      ensures NextRecord([], place, true, o) == Fail(InputFailed(place.line + 1))
    {
    }

    /** The fast path. */
    method TakeBuffered(bytes: seq<byte>, end: nat, count: nat, ghost s: seq<byte>, ghost place: Place)
      returns (r: Try<Option<(nat, seq<byte>, seq<Field>)>>)
      requires Valid() && pending == 0 && Remaining() == s && place == Place(first, line) && recordLine == line + 1
      requires bytes == input.buffered && Buffered(bytes, end, count, o) && !first
      modifies this
      ensures Agrees(r, NextRecord(s, place, input.fails, o))
    {
      hide NextFrom, TakeLine, ParseFields, ValidUtf8, BlankLine, BodyLength, ToTerminator, NoQuote;
      BufferedIsLine(s, bytes, end, count, recordLine, input.fails, o);
      BufferedRecord(s, bytes, end, count, place, input.fails, o);
      line := line + 1;
      pending := count;
      var parsed := ParseUnquotedRecord(bytes[..end], o);
      if parsed.Failed? {
        return Failed(parsed.error);
      }
      fields := parsed.value.value;
      if !ValidUtf8(bytes[..count]) {
        return Failed(BadUtf8);
      }
      CellsOfLonger(fields, bytes[..end], bytes[..count]);
      assert input.Stream()[count..] == s[count..];
      return Fine(Some((recordLine, bytes[..count], fields)));
    }

    /** The line-by-line path. */
    method ReadLines(ghost s: seq<byte>, ghost place: Place) returns (r: Try<Option<(nat, seq<byte>, seq<Field>)>>)
      requires Valid() && pending == 0 && Remaining() == s && place == Place(first, line) && raw == []
               && recordLine == line + 1
      modifies this, input
      ensures Agrees(r, NextRecord(s, place, input.fails, o))
    {
      hide NextFrom, Agrees;
      assert input.Stream()[0..] == input.Stream();
      while true
        invariant Valid() && pending == 0 && |raw| <= o.recordLimit
        invariant NextFrom(raw, input.Stream(), Place(first, line), recordLine, input.fails, o)
                  == NextRecord(s, place, input.fails, o)
        decreases |input.Stream()|
      {
        var done;
        r, done := ReadLine();
        if done {
          return;
        }
      }
    }

    /** One physical line: it ends the record, or the record goes on, or it is blank. */
    method ReadLine() returns (r: Try<Option<(nat, seq<byte>, seq<Field>)>>, done: bool)
      requires Valid() && pending == 0 && |raw| <= o.recordLimit
      modifies this, input
      ensures done ==> Agrees(r, NextFrom(old(raw), old(input.Stream()), Place(old(first), old(line)), old(recordLine),
                                          input.fails, o))
      ensures !done ==>
                && Valid() && pending == 0 && |raw| <= o.recordLimit && |input.Stream()| < |old(input.Stream())|
                && NextFrom(raw, input.Stream(), Place(first, line), recordLine, input.fails, o)
                   == NextFrom(old(raw), old(input.Stream()), Place(old(first), old(line)), old(recordLine),
                               input.fails, o)
    {
      hide NextFrom, TakeLine, BlankLine, Parse, Complete, Agrees;
      ghost var before, left := raw, input.Stream();
      LineDecides(before, left, Place(first, line), recordLine, input.fails, o);
      var read;
      read, raw := PhysicalLine(input, raw, recordLine, o);
      if read.Failed? {
        FailureAgrees(Failed(read.error), read.error);
        return Failed(read.error), true;
      }
      if read.value == 0 {
        assert raw == before && input.Stream() == left;
        if raw == [] {
          NothingAgrees();
          return Fine(None), true;
        }
        var open;
        r, open := TakeRecord();
        if open {
          FailureAgrees(Failed(Unclosed(recordLine)), Unclosed(recordLine));
          return Failed(Unclosed(recordLine)), true;
        }
        return r, true;
      }
      line := line + 1;
      StripMark();
      BlankIs(raw);
      if raw == [LF] || raw == [CR, LF] || raw == [CR] {
        raw := [];
        recordLine := line + 1;
        return Fine(None), false;
      }
      var more;
      r, more := TakeRecord();
      if more && !o.multiline {
        FailureAgrees(Failed(MultilineNeeded(recordLine)), MultilineNeeded(recordLine));
        return Failed(MultilineNeeded(recordLine)), true;
      }
      done := !more;
    }

    lemma FailureAgrees(r: Try<Option<(nat, seq<byte>, seq<Field>)>>, e: CsvError)
      requires r == Failed(e)
      ensures Agrees(r, Fail(e))
    {
    }

    lemma NothingAgrees()
      ensures Agrees(Fine(None), End)
    {
    }

    /** A byte order mark in front of the first record is dropped. */
    method StripMark()
      modifies this`first, this`raw
      ensures !first && raw == if old(first) && BYTE_ORDER_MARK <= old(raw) then old(raw)[3..] else old(raw)
    {
      if first {
        first := false;
        if BYTE_ORDER_MARK <= raw {
          raw := raw[3..];
        }
      }
    }

    /** Parses the lines read so far; `more` when a quoted field is still open. */
    method TakeRecord() returns (r: Try<Option<(nat, seq<byte>, seq<Field>)>>, more: bool)
      requires Valid() && pending == 0
      modifies this`fields
      ensures more <==> Parse(raw, o) == Fine(None)
      ensures match Parse(raw, o)
              case Failed(e) => Agrees(r, Fail(e))
              case Fine(None) => true
              case Fine(Some(cells)) => Agrees(r, Complete(recordLine, raw, cells, Place(first, line), input.Stream()))
    {
      hide Parse, ValidUtf8;
      var parsed := ParseRecord(raw, o);
      if parsed.Failed? {
        return Failed(parsed.error), false;
      }
      if parsed.value.None? {
        return Fine(None), true;
      }
      fields := parsed.value.value;
      r := Finish();
      more := false;
    }

    /** A complete record must be valid UTF-8. */
    method Finish() returns (r: Try<Option<(nat, seq<byte>, seq<Field>)>>)
      requires Valid() && pending == 0 && FieldsIn(fields, raw)
      ensures Agrees(r, Complete(recordLine, raw, CellsOf(fields, raw), Place(first, line), input.Stream()))
    {
      hide ValidUtf8;
      assert input.Stream()[0..] == input.Stream();
      if !ValidUtf8(raw) {
        return Failed(BadUtf8);
      }
      return Fine(Some((recordLine, raw, fields)));
    }
  }

  // ---------------------------------------------------------------- a whole input

  /** Records read so far, in front of those that remain. */
  ghost predicate SoFar(all: (seq<(nat, seq<Cell>)>, Option<CsvError>), records: seq<(nat, seq<Cell>)>,
                        more: (seq<(nat, seq<Cell>)>, Option<CsvError>)) {
    all == (records + more.0, more.1)
  }

  lemma NoneYet(all: (seq<(nat, seq<Cell>)>, Option<CsvError>))
    ensures SoFar(all, [], all)
  {
    assert [] + all.0 == all.0;
  }

  lemma OneRead(all: (seq<(nat, seq<Cell>)>, Option<CsvError>), records: seq<(nat, seq<Cell>)>, one: (nat, seq<Cell>),
                more: (seq<(nat, seq<Cell>)>, Option<CsvError>))
    requires SoFar(all, records, ([one] + more.0, more.1))
    ensures SoFar(all, records + [one], more)
  {
    assert records + ([one] + more.0) == records + [one] + more.0;
  }

  lemma AllRead(all: (seq<(nat, seq<Cell>)>, Option<CsvError>), records: seq<(nat, seq<Cell>)>, error: Option<CsvError>)
    requires SoFar(all, records, ([], error))
    ensures all == (records, error)
  {
    assert records + [] == records;
  }

  /** Reads all records.  The result depends on the bytes alone, not on the pieces they arrive in. */
  method ReadAll(bytes: seq<byte>, fails: bool, o: Options) returns (records: seq<(nat, seq<Cell>)>,
                                                                     error: Option<CsvError>)
    ensures (records, error) == AllRecords(bytes, Place(true, 0), fails, o)
  {
    hide NextRecord, AllRecords, SoFar, CellsOf;
    var input := new BufSource(bytes, fails);
    var reader := new CsvReader(input, o);
    records := [];
    ghost var all := AllRecords(bytes, Place(true, 0), fails, o);
    NoneYet(all);
    while true
      invariant fresh(reader) && fresh(reader.input) && reader.input.fails == fails && reader.o == o && reader.Valid()
      invariant SoFar(all, records, AllRecords(reader.Remaining(), Place(reader.first, reader.line), fails, o))
      decreases |reader.Remaining()|
    {
      AllStep(reader.Remaining(), Place(reader.first, reader.line), fails, o);
      var next := reader.NextBorrowed();
      if next.Failed? {
        AllRead(all, records, Some(next.error));
        return records, Some(next.error);
      }
      if next.value.None? {
        AllRead(all, records, None);
        return records, None;
      }
      var (line, raw, fields) := next.value.value;
      OneRead(all, records, (line, CellsOf(fields, raw)), AllRecords(reader.Remaining(),
                                                                     Place(reader.first, reader.line), fails, o));
      records := records + [(line, CellsOf(fields, raw))];
    }
  }
}
