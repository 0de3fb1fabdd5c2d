/** What a CSV stream means, without regard to how it arrives: fields, records, lines and limits
    (`csv.rs`). */
module CsvFormat {
  import opened Bytes
  import opened Results
  import opened Utf8

  const LF: byte := 10
  const CR: byte := 13
  const SPACE: byte := 32
  const TAB: byte := 9
  const BACKSLASH: byte := 92

  /** Delimiter and quote are characters, so they have at least one byte. */
  type Mark = s: seq<byte> | s != [] witness [44]

  datatype Options = Options(
    delimiter: Mark, quote: Mark, multiline: bool, legacy: bool, trim: bool, limit: nat, recordLimit: nat)

  datatype Cell = Cell(text: seq<byte>, quoted: bool)

  datatype CsvError =
    | FieldTooLong | AfterQuote | BadUtf8
    | RecordTooLong(line: nat) | LineFeedTooLong(line: nat) | InputFailed(line: nat)
    | Unclosed(line: nat) | MultilineNeeded(line: nat)

  datatype Try<T> = Fine(value: T) | Failed(error: CsvError)

  // ---------------------------------------------------------------- one field

  datatype QuotedField = Closed(text: seq<byte>, escaped: bool, rest: seq<byte>) | Open | Bad(error: CsvError)

  /** The quoted field whose text so far is `out`; `s` follows. */
  function Quoted(s: seq<byte>, out: seq<byte>, escaped: bool, o: Options): (r: QuotedField)
    ensures r.Closed? ==> |r.rest| <= |s| && (r.rest == [] || o.delimiter <= r.rest)
    decreases |s|
  {
    var q := |o.quote|;
    if s == [] then if |out| > o.limit then Bad(FieldTooLong) else Open
    else if o.quote <= s then
      if |out| > o.limit then Bad(FieldTooLong)
      else
        var rest := s[q..];
        if o.quote <= rest then Quoted(rest[q..], out + o.quote, true, o)
        else if rest == [] || o.delimiter <= rest then Closed(out, escaped, rest)
        else Bad(AfterQuote)
    else if o.legacy && s[0] == BACKSLASH && o.quote <= s[1..] then Quoted(s[1 + q..], out + o.quote, true, o)
    else if o.legacy && s[0] == BACKSLASH && |s| >= 2 && s[1] == BACKSLASH then
      if |out| + 1 > o.limit then Bad(FieldTooLong) else Quoted(s[2..], out + [BACKSLASH], true, o)
    else Quoted(s[1..], out + [s[0]], escaped, o)
  }

  /** Bytes before the first delimiter. */
  function ToDelimiter(s: seq<byte>, d: Mark): (n: nat)
    ensures n <= |s| && (n < |s| ==> d <= s[n..])
    ensures forall k | 0 <= k < n :: !(d <= s[k..])
  {
    if s == [] || d <= s then 0
    else
      var n := ToDelimiter(s[1..], d);
      assert forall k | 0 < k < n + 1 :: s[k..] == s[1..][k - 1..];
      assert n < |s[1..]| ==> s[n + 1..] == s[1..][n..];
      n + 1
  }

  /** Blanks that may precede an opening quote. */
  function Blanks(s: seq<byte>, o: Options): (n: nat)
    ensures n <= |s|
  {
    if o.trim && s != [] && (s[0] == SPACE || s[0] == TAB) && !(o.delimiter <= s) then 1 + Blanks(s[1..], o) else 0
  }

  datatype FieldRead = Got(cell: Cell, rest: seq<byte>) | NotClosed | Wrong(error: CsvError)

  function FieldAt(s: seq<byte>, o: Options): (r: FieldRead)
    ensures r.Got? ==> |r.rest| <= |s| && (r.rest == [] || o.delimiter <= r.rest)
  {
    var start := s[Blanks(s, o)..];
    if o.quote <= start then
      match Quoted(start[|o.quote|..], [], false, o)
      case Bad(e) => Wrong(e)
      case Open => NotClosed
      case Closed(text, escaped, rest) =>
        if escaped && !ValidUtf8(text) then Wrong(BadUtf8) else Got(Cell(text, true), rest)
    else
      var n := ToDelimiter(s, o.delimiter);
      if n > o.limit then Wrong(FieldTooLong) else Got(Cell(s[..n], false), s[n..])
  }

  // ---------------------------------------------------------------- one record

  /** The cells of a record without its terminator; `None` while a quoted field is open. */
  function ParseFields(s: seq<byte>, o: Options): Try<Option<seq<Cell>>>
    decreases |s|
  {
    match FieldAt(s, o)
    case Wrong(e) => Failed(e)
    case NotClosed => Fine(None)
    case Got(cell, rest) => if rest == [] then Fine(Some([cell]))
                            else Prefixed([cell], ParseFields(rest[|o.delimiter|..], o))
  }

  function Prefixed(cells: seq<Cell>, more: Try<Option<seq<Cell>>>): Try<Option<seq<Cell>>> {
    match more
    case Failed(e) => Failed(e)
    case Fine(None) => Fine(None)
    case Fine(Some(rest)) => Fine(Some(cells + rest))
  }

  lemma PrefixedTwice(a: seq<Cell>, b: seq<Cell>, more: Try<Option<seq<Cell>>>)
    ensures Prefixed(a, Prefixed(b, more)) == Prefixed(a + b, more)
    ensures Prefixed([], more) == more
  {
    if more.Fine? && more.value.Some? {
      assert a + (b + more.value.value) == a + b + more.value.value;
      assert [] + more.value.value == more.value.value;
    }
  }

  /** Length without the record terminator. */
  function BodyLength(raw: seq<byte>): (n: nat)
    ensures n <= |raw|
  {
    var n := |raw|;
    if n > 0 && raw[n - 1] == LF then if n > 1 && raw[n - 2] == CR then n - 2 else n - 1
    else if n > 0 && raw[n - 1] == CR then n - 1
    else n
  }

  function Parse(raw: seq<byte>, o: Options): Try<Option<seq<Cell>>> {
    ParseFields(raw[..BodyLength(raw)], o)
  }

  // ---------------------------------------------------------------- lines

  predicate Terminator(b: byte) {
    b == LF || b == CR
  }

  /** Bytes before the first terminator. */
  function ToTerminator(s: seq<byte>): (n: nat)
    ensures n <= |s| && (n < |s| ==> Terminator(s[n]))
    ensures forall k | 0 <= k < n :: !Terminator(s[k])
  {
    if s == [] || Terminator(s[0]) then 0 else 1 + ToTerminator(s[1..])
  }

  /** Length of the next physical line, of which `used` bytes of the record came before.  `fails`:
      reading behind the end of `s` is an input error. */
  function TakeLine(s: seq<byte>, used: nat, line: nat, fails: bool, o: Options): (r: Try<nat>)
    ensures r.Fine? ==> r.value <= |s| && (s != [] ==> r.value > 0)
  {
    var n := ToTerminator(s);
    if n == |s| then
      if n > 0 && used + n > o.recordLimit then Failed(RecordTooLong(line))
      else if fails then Failed(InputFailed(line))
      else Fine(n)
    else if used + n + 1 > o.recordLimit then Failed(RecordTooLong(line))
    else if s[n] == LF then Fine(n + 1)
    else if n + 1 == |s| then if fails then Failed(InputFailed(line)) else Fine(n + 1)
    else if s[n + 1] == LF then if used + n + 1 == o.recordLimit then Failed(LineFeedTooLong(line)) else Fine(n + 2)
    else Fine(n + 1)
  }

  // ---------------------------------------------------------------- the next record

  const BYTE_ORDER_MARK: seq<byte> := [0xEF, 0xBB, 0xBF]

  predicate BlankLine(raw: seq<byte>) {
    raw == [LF] || raw == [CR, LF] || raw == [CR]
  }

  /** Position in the stream: whether nothing was read yet, and the lines read. */
  datatype Place = Place(first: bool, line: nat)

  datatype Next = End | Rec(recordLine: nat, cells: seq<Cell>, place: Place, rest: seq<byte>) | Fail(error: CsvError)

  /** What a complete record gives. */
  function Complete(recordLine: nat, raw: seq<byte>, cells: seq<Cell>, place: Place, rest: seq<byte>): Next {
    if ValidUtf8(raw) then Rec(recordLine, cells, place, rest) else Fail(BadUtf8)
  }

  /** The next record of the stream `s`, when `raw` holds the lines of it that were read before. */
  function NextFrom(raw: seq<byte>, s: seq<byte>, place: Place, recordLine: nat, fails: bool, o: Options): Next
    decreases |s|
  {
    match TakeLine(s, |raw|, recordLine, fails, o)
    case Failed(e) => Fail(e)
    case Fine(n) =>
      if n == 0 then
        if raw == [] then End
        else
          match Parse(raw, o)
          case Failed(e) => Fail(e)
          case Fine(None) => Fail(Unclosed(recordLine))
          case Fine(Some(cells)) => Complete(recordLine, raw, cells, place, s)
      else
        var longer := raw + s[..n];
        var record := if place.first && BYTE_ORDER_MARK <= longer then longer[3..] else longer;
        var place' := Place(false, place.line + 1);
        if BlankLine(record) then NextFrom([], s[n..], place', place'.line + 1, fails, o)
        else
          match Parse(record, o)
          case Failed(e) => Fail(e)
          case Fine(Some(cells)) => Complete(recordLine, record, cells, place', s[n..])
          case Fine(None) =>
            if o.multiline then NextFrom(record, s[n..], place', recordLine, fails, o)
                else Fail(MultilineNeeded(recordLine))
  }

  /** The next record of a stream. */
  function NextRecord(s: seq<byte>, place: Place, fails: bool, o: Options): Next {
    NextFrom([], s, place, place.line + 1, fails, o)
  }

  lemma BlankIs(raw: seq<byte>)
    ensures BlankLine(raw) <==> raw == [LF] || raw == [CR, LF] || raw == [CR]
  {
  }

  /** One unfolding of the specification. */
  lemma LineDecides(raw: seq<byte>, s: seq<byte>, place: Place, recordLine: nat, fails: bool, o: Options)
    ensures var next := NextFrom(raw, s, place, recordLine, fails, o);
            match TakeLine(s, |raw|, recordLine, fails, o)
            case Failed(e) => next == Fail(e)
            case Fine(n) =>
              if n == 0 then
                next == if raw == [] then End
                        else
                          match Parse(raw, o)
                          case Failed(e) => Fail(e)
                          case Fine(None) => Fail(Unclosed(recordLine))
                          case Fine(Some(cells)) => Complete(recordLine, raw, cells, place, s)
              else
                var longer := raw + s[..n];
                var record := if place.first && BYTE_ORDER_MARK <= longer then longer[3..] else longer;
                var place' := Place(false, place.line + 1);
                next == if BlankLine(record) then NextFrom([], s[n..], place', place'.line + 1, fails, o)
                        else
                          match Parse(record, o)
                          case Failed(e) => Fail(e)
                          case Fine(Some(cells)) => Complete(recordLine, record, cells, place', s[n..])
                          case Fine(None) =>
                            if o.multiline then NextFrom(record, s[n..], place', recordLine, fails, o)
                                else Fail(MultilineNeeded(recordLine))
  {
    hide TakeLine, Parse, BlankLine;
  }

  /** A record takes at least one line. */
  lemma {:induction false} RecordsShrink(raw: seq<byte>, s: seq<byte>, place: Place, recordLine: nat, fails: bool,
                                         o: Options)
    ensures var next := NextFrom(raw, s, place, recordLine, fails, o);
            next.Rec? ==> |next.rest| <= |s| && (raw == [] ==> |next.rest| < |s|)
    decreases |s|
  {
    hide TakeLine, BlankLine, Parse;
    var taken := TakeLine(s, |raw|, recordLine, fails, o);
    if taken.Fine? && taken.value > 0 {
      var n := taken.value;
      var longer := raw + s[..n];
      var record := if place.first && BYTE_ORDER_MARK <= longer then longer[3..] else longer;
      var place' := Place(false, place.line + 1);
      RecordsShrink([], s[n..], place', place'.line + 1, fails, o);
      RecordsShrink(record, s[n..], place', recordLine, fails, o);
    }
  }

  /** All records of a stream with their lines, and the error that ends them, if one does. */
  function AllRecords(s: seq<byte>, place: Place, fails: bool, o: Options): (seq<(nat, seq<Cell>)>, Option<CsvError>)
    decreases |s|
  {
    match NextRecord(s, place, fails, o)
    case End => ([], None)
    case Fail(e) => ([], Some(e))
    case Rec(line, cells, place', rest) =>
      RecordsShrink([], s, place, place.line + 1, fails, o);
      var more := AllRecords(rest, place', fails, o);
      ([(line, cells)] + more.0, more.1)
  }

  lemma AllStep(s: seq<byte>, place: Place, fails: bool, o: Options)
    ensures match NextRecord(s, place, fails, o)
            case End => AllRecords(s, place, fails, o) == ([], None)
            case Fail(e) => AllRecords(s, place, fails, o) == ([], Some(e))
            case Rec(line, cells, place', rest) =>
              && |rest| < |s|
              && var more := AllRecords(rest, place', fails, o);
                 AllRecords(s, place, fails, o) == ([(line, cells)] + more.0, more.1)
  {
    hide NextFrom;
    RecordsShrink([], s, place, place.line + 1, fails, o);
  }
}
