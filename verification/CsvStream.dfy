/** Where the records of a CSV stream stand, for every stream and every choice of options: what lines a record takes,
    what is passed over in front of it, and what its fields say. */
module CsvStream {
  import opened Bytes
  import opened CsvFormat
  import opened CsvGrammar
  import opened Results
  import opened Utf8

  /** A line, up to its terminator. */
  predicate LineWithBody(line: seq<byte>, body: seq<byte>) {
    && body <= line
    && var end := line[|body|..];
       || end == [CR, LF]
       || (end == [LF] && (body == [] || body[|body| - 1] != CR))
       || end == [CR]
       || (end == [] && (body == [] || !Terminator(body[|body| - 1])))
  }

  /** A line ends behind the first `m` bytes. */
  predicate LineEnd(t: seq<byte>, m: nat) {
    0 < m <= |t| && (m == |t| || t[m - 1] == LF || (t[m - 1] == CR && t[m] != LF))
  }

  ghost predicate OpenLines(lines: seq<byte>, o: Options) {
    exists body, before :: LineWithBody(lines, body) && IsOpenRecord(body, before, o)
  }

  /** At the ends of its lines before the last the record is still open. */
  ghost predicate OpenUpTo(t: seq<byte>, end: nat, o: Options) {
    forall m: nat | m < end && LineEnd(t, m) :: OpenLines(t[..m], o)
  }

  /** The record at the start of `t`: whole lines, the fewest that leave no field open. */
  ghost predicate RecordAt(t: seq<byte>, record: seq<byte>, cells: seq<Cell>, o: Options) {
    && record <= t && (record == [] || (LineEnd(t, |record|) && !Terminator(record[0])))
    && OpenUpTo(t, |record|, o) && ValidUtf8(record)
    && exists body :: LineWithBody(record, body) && IsRecord(body, cells, o)
  }

  /** What is passed over: a mark at the very start of the stream, and blank lines. */
  predicate PassedOver(skipped: seq<byte>, first: bool) {
    && forall b | b in (if first && BYTE_ORDER_MARK <= skipped then skipped[3..] else skipped) :: Terminator(b)
  }

  lemma BodyIs(line: seq<byte>)
    ensures LineWithBody(line, line[..BodyLength(line)])
  {
  }

  /** A line has one body. */
  lemma OneBody(line: seq<byte>, body: seq<byte>)
    requires LineWithBody(line, body)
    ensures body == line[..BodyLength(line)]
  {
    assert line == body + line[|body|..];
  }

  lemma ParsedLine(line: seq<byte>, o: Options)
    ensures var r := Parse(line, o);
            && (r.Fine? && r.value.Some? ==>
                  exists body :: LineWithBody(line, body) && IsRecord(body, r.value.value, o))
            && (r == Fine(None) ==> OpenLines(line, o))
  {
    hide ParseFields, IsRecord, IsOpenRecord, LineWithBody, BodyLength;
    BodyIs(line);
    var body := line[..BodyLength(line)];
    var before := ParsedIsRecord(body, o);
  }

  /** The next line of a stream, and that none ends inside it. */
  lemma TakenLine(raw: seq<byte>, s: seq<byte>, line: nat, fails: bool, o: Options)
    requires TakeLine(s, |raw|, line, fails, o).Fine? && (raw != [] ==> LineEnd(raw + s, |raw|))
    ensures var n := TakeLine(s, |raw|, line, fails, o).value;
            && (n == 0 <==> s == []) && (n > 0 ==> LineEnd(raw + s, |raw| + n))
            && forall m: nat | |raw| < m < |raw| + n :: !LineEnd(raw + s, m)
  {
    var t, n, k := raw + s, TakeLine(s, |raw|, line, fails, o).value, ToTerminator(s);
    forall m: nat | |raw| < m < |raw| + n ensures !LineEnd(t, m) {
      assert t[m - 1] == s[m - 1 - |raw|] && t[m] == s[m - |raw|];
    }
    if n > 0 {
      assert t[|raw| + n - 1] == s[n - 1];
      assert |raw| + n < |t| ==> t[|raw| + n] == s[n];
    }
  }

  /** Without its first `d` bytes, which end no line, a stream has the same lines. */
  lemma LinesBehind(t: seq<byte>, d: nat, m: nat)
    requires d <= |t| && m > 0
    ensures LineEnd(t[d..], m) <==> LineEnd(t, d + m)
  {
  }

  lemma MoreOpen(t: seq<byte>, from: nat, to: nat, o: Options)
    requires OpenUpTo(t, from, o) && from <= to <= |t| && (0 < from < to ==> OpenLines(t[..from], o))
    requires forall m: nat | from < m < to :: !LineEnd(t, m)
    ensures OpenUpTo(t, to, o)
  {
    hide OpenLines;
    forall m: nat | m < to && LineEnd(t, m) ensures OpenLines(t[..m], o) {
      if m == from {
        assert OpenLines(t[..from], o);
      }
    }
  }

  lemma NothingOpen(t: seq<byte>, o: Options)
    ensures OpenUpTo(t, 0, o)
  {
  }

  lemma BlankStarts(line: seq<byte>, t: seq<byte>)
    requires line <= t && LineEnd(t, |line|) && forall m: nat | 0 < m < |line| :: !LineEnd(t, m)
    ensures BlankLine(line) <==> Terminator(line[0])
    ensures BlankLine(line) ==> forall b | b in line :: Terminator(b)
  {
    if Terminator(line[0]) && |line| > 1 {
      assert !LineEnd(t, 1);
      assert t[0] == line[0] && t[1] == line[1];
      assert LineEnd(t, 2);
      assert line == [CR, LF];
    } else if Terminator(line[0]) {
      assert line == [line[0]];
    }
  }

  /** What is known of the lines read so far. */
  ghost predicate Started(raw: seq<byte>, s: seq<byte>, first: bool, o: Options) {
    raw != [] ==>
      && !first && o.multiline && !Terminator(raw[0]) && LineEnd(raw + s, |raw|) && OpenUpTo(raw + s, |raw|, o)
      && OpenLines(raw, o)
  }

  function MarkLength(line: seq<byte>, first: bool): (d: nat)
    ensures d <= |line|
  {
    if first && BYTE_ORDER_MARK <= line then 3 else 0
  }

  /** The first line of a record, behind a mark if there is one. */
  lemma FirstLine(s: seq<byte>, n: nat, d: nat, o: Options)
    requires 0 < n <= |s| && d <= n && LineEnd(s, n) && forall m: nat | 0 < m < n :: !LineEnd(s, m)
    ensures var record, rest := s[d..n], s[n..];
            && s[d..] == record + rest
            && (record != [] ==> LineEnd(record + rest, |record|)) && OpenUpTo(record + rest, |record|, o)
            && (record != [] ==> (BlankLine(record) <==> Terminator(record[0])))
            && (BlankLine(record) ==> forall b | b in record :: Terminator(b))
  {
    hide OpenLines, LineEnd, Terminator;
    var record, rest := s[d..n], s[n..];
    assert s[d..] == record + rest;
    forall m: nat | 0 < m ensures LineEnd(record + rest, m) <==> LineEnd(s, d + m) {
      LinesBehind(s, d, m);
    }
    NothingOpen(record + rest, o);
    MoreOpen(record + rest, 0, |record|, o);
    if record != [] {
      BlankStarts(record, record + rest);
    }
  }

  /** Another line of an open record. */
  lemma LaterLine(raw: seq<byte>, s: seq<byte>, n: nat, o: Options)
    requires raw != [] && Started(raw, s, false, o) && 0 < n <= |s| && LineEnd(raw + s, |raw| + n)
    requires forall m: nat | |raw| < m < |raw| + n :: !LineEnd(raw + s, m)
    ensures var record, rest := raw + s[..n], s[n..];
            && raw + s == record + rest && LineEnd(record + rest, |record|) && OpenUpTo(record + rest, |record|, o)
            && record != [] && !Terminator(record[0]) && !BlankLine(record)
  {
    hide OpenLines, LineEnd;
    var record, rest := raw + s[..n], s[n..];
    assert (raw + s)[..|raw|] == raw && record + rest == raw + s;
    MoreOpen(raw + s, |raw|, |raw| + n, o);
    NotBlank(record);
  }

  lemma LinesRead(raw: seq<byte>, s: seq<byte>, first: bool, line: nat, fails: bool, o: Options)
    requires Started(raw, s, first, o) && TakeLine(s, |raw|, line, fails, o).Fine?
    requires TakeLine(s, |raw|, line, fails, o).value > 0
    ensures var n := TakeLine(s, |raw|, line, fails, o).value;
            var longer := raw + s[..n];
            var d := MarkLength(longer, first);
            var record, rest := longer[d..], s[n..];
            && (raw + s)[d..] == record + rest && (d > 0 ==> raw == [])
            && (record != [] ==> LineEnd(record + rest, |record|)) && OpenUpTo(record + rest, |record|, o)
            && (record != [] ==> (BlankLine(record) <==> Terminator(record[0])))
            && (BlankLine(record) ==> raw == [] && forall b | b in record :: Terminator(b))
  {
    hide TakeLine, OpenLines, OpenUpTo, BlankLine, LineEnd, Terminator;
    TakenLine(raw, s, line, fails, o);
    var n := TakeLine(s, |raw|, line, fails, o).value;
    if raw == [] {
      assert raw + s == s && raw + s[..n] == s[..n];
      var d := MarkLength(s[..n], first);
      assert s[..n][d..] == s[d..n];
      FirstLine(s, n, d, o);
    } else {
      var longer := raw + s[..n];
      LaterLine(raw, s, n, o);
      assert longer[0..] == longer && (raw + s)[0..] == raw + s;
    }
  }

  lemma NotBlank(record: seq<byte>)
    requires record != [] && !Terminator(record[0])
    ensures !BlankLine(record)
  {
  }

  lemma EmptyIsParsed(o: Options)
    ensures Parse([], o) == Fine(Some([Cell([], false)]))
  {
  }

  lemma Passed(mark: seq<byte>, blank: seq<byte>, skipped: seq<byte>, first: bool)
    requires mark == [] || (first && mark == BYTE_ORDER_MARK)
    requires forall b | b in blank :: Terminator(b)
    requires PassedOver(skipped, false)
    ensures PassedOver(mark + blank + skipped, first)
  {
    var all := mark + blank + skipped;
    if mark == [] {
      forall b | b in all ensures Terminator(b) {
      }
      if BYTE_ORDER_MARK <= all {
        assert all[0] == 0xEF;
        assert all[0] in all;
      }
    } else {
      assert all[3..] == blank + skipped;
    }
  }

  /** The record is within the limit, input does not fail in it, and it has one line unless more are allowed. */
  ghost predicate Permitted(record: seq<byte>, rest: seq<byte>, fails: bool, o: Options) {
    && |record| <= o.recordLimit && (fails ==> rest != [] || (record != [] && record[|record| - 1] == LF))
    && (!o.multiline ==> forall k: nat | 0 < k < |record| :: !LineEnd(record + rest, k))
  }

  lemma LineFits(s: seq<byte>, used: nat, line: nat, fails: bool, o: Options)
    requires TakeLine(s, used, line, fails, o).Fine? && TakeLine(s, used, line, fails, o).value > 0
    ensures var n := TakeLine(s, used, line, fails, o).value;
            used + n <= o.recordLimit && (fails ==> n < |s| || s[n - 1] == LF)
  {
  }

  lemma LinePermitted(raw: seq<byte>, s: seq<byte>, first: bool, line: nat, fails: bool, o: Options)
    requires Started(raw, s, first, o) && TakeLine(s, |raw|, line, fails, o).Fine?
    requires TakeLine(s, |raw|, line, fails, o).value > 0
    ensures var n := TakeLine(s, |raw|, line, fails, o).value;
            var longer := raw + s[..n];
            Permitted(longer[MarkLength(longer, first)..], s[n..], fails, o)
  {
    hide TakeLine, OpenLines, OpenUpTo, LineEnd, Terminator, MarkLength;
    LineFits(s, |raw|, line, fails, o);
    var n := TakeLine(s, |raw|, line, fails, o).value;
    var longer := raw + s[..n];
    var d := MarkLength(longer, first);
    var record, rest := longer[d..], s[n..];
    if fails && rest == [] {
      assert longer[|longer| - 1] == s[n - 1];
      MarkIsNoFeed(longer, first);
    }
    if !o.multiline {
      TakenLine(raw, s, line, fails, o);
      assert raw + s == s && longer == s[..n];
      assert record == s[d..n];
      OneLineOnly(s, n, d);
    }
  }

  lemma MarkIsNoFeed(line: seq<byte>, first: bool)
    requires line != [] && line[|line| - 1] == LF
    ensures MarkLength(line, first) < |line|
  {
    assert BYTE_ORDER_MARK[2] == 0xBF;
  }

  lemma OneLineOnly(s: seq<byte>, n: nat, d: nat)
    requires d <= n <= |s| && forall m: nat | 0 < m < n :: !LineEnd(s, m)
    ensures forall k: nat | 0 < k < n - d :: !LineEnd(s[d..n] + s[n..], k)
  {
    hide LineEnd;
    assert s[d..n] + s[n..] == s[d..];
    forall k: nat | 0 < k < n - d ensures !LineEnd(s[d..], k) {
      LinesBehind(s, d, k);
    }
  }

  /** The record that was found lies behind what was passed over, and reading goes on behind it. */
  ghost predicate Found(raw: seq<byte>, s: seq<byte>, first: bool, skipped: seq<byte>, record: seq<byte>, next: Next,
                        fails: bool, o: Options) {
    next.Rec? ==>
      && raw + s == skipped + record + next.rest && (raw != [] ==> skipped == [])
      && PassedOver(skipped, first) && (first && BYTE_ORDER_MARK <= s ==> BYTE_ORDER_MARK <= skipped)
      && RecordAt(record + next.rest, record, next.cells, o) && Permitted(record, next.rest, fails, o)
  }

  /** A line that completes a record. */
  lemma FoundHere(raw: seq<byte>, s: seq<byte>, first: bool, mark: seq<byte>, record: seq<byte>, rest: seq<byte>,
                  recordLine: nat, place: Place, fails: bool, o: Options)
    requires Permitted(record, rest, fails, o)
    requires raw + s == mark + record + rest && (raw != [] ==> mark == []) && PassedOver(mark, first)
    requires first && BYTE_ORDER_MARK <= s ==> mark == BYTE_ORDER_MARK
    requires (record != [] ==> LineEnd(record + rest, |record|)) && OpenUpTo(record + rest, |record|, o)
    requires record != [] ==> !Terminator(record[0])
    ensures var r := Parse(record, o);
            r.Fine? && r.value.Some? ==>
              Found(raw, s, first, mark, record, Complete(recordLine, record, r.value.value, place, rest), fails, o)
  {
    hide Parse, ValidUtf8, LineEnd, OpenLines, OpenUpTo, LineWithBody, IsRecord, Terminator, PassedOver, Permitted;
    ParsedLine(record, o);
  }

  /** A blank line is passed over. */
  lemma FoundBehind(raw: seq<byte>, s: seq<byte>, first: bool, mark: seq<byte>, blank: seq<byte>, rest: seq<byte>,
                    behind: seq<byte>, record: seq<byte>, next: Next, fails: bool, o: Options)
    requires raw == [] && raw + s == mark + blank + rest && (mark == [] || (first && mark == BYTE_ORDER_MARK))
    requires (first && BYTE_ORDER_MARK <= s ==> mark == BYTE_ORDER_MARK) && forall b | b in blank :: Terminator(b)
    requires Found([], rest, false, behind, record, next, fails, o)
    ensures Found(raw, s, first, mark + blank + behind, record, next, fails, o)
  {
    hide RecordAt, PassedOver, Terminator, Permitted;
    if next.Rec? {
      Passed(mark, blank, behind, first);
      InOrder(raw + s, mark, blank, rest, behind, record, next.rest);
    }
  }

  /** An open record goes on. */
  lemma FoundLater(raw: seq<byte>, s: seq<byte>, first: bool, mark: seq<byte>, lines: seq<byte>, rest: seq<byte>,
                   none: seq<byte>, record: seq<byte>, next: Next, fails: bool, o: Options)
    requires raw + s == mark + lines + rest && lines != [] && (raw != [] ==> mark == []) && PassedOver(mark, first)
    requires first && BYTE_ORDER_MARK <= s ==> mark == BYTE_ORDER_MARK
    requires Found(lines, rest, false, none, record, next, fails, o)
    ensures Found(raw, s, first, mark, record, next, fails, o)
  {
    hide RecordAt, PassedOver, Permitted;
    if next.Rec? {
      assert mark + lines + rest == mark + [] + (lines + rest);
      InOrder(raw + s, mark, [], lines + rest, [], record, next.rest);
    }
  }

  /** For every stream and every choice of options: a record that is read is the one at the first byte behind the
      mark and the blank lines, its cells are what the grammar says, and reading goes on behind it. */
  lemma {:induction false} ReadRecordIsAt(raw: seq<byte>, s: seq<byte>, place: Place, recordLine: nat, fails: bool,
                                          o: Options)
    returns (skipped: seq<byte>, record: seq<byte>)
    requires Started(raw, s, place.first, o)
    ensures Found(raw, s, place.first, skipped, record, NextFrom(raw, s, place, recordLine, fails, o), fails, o)
    decreases |s|
  {
    hide TakeLine, Parse, BlankLine, OpenLines, OpenUpTo, ValidUtf8, LineEnd, NextFrom, PassedOver, RecordAt, Complete,
         Permitted;
    skipped, record := [], raw;
    LineDecides(raw, s, place, recordLine, fails, o);
    var taken := TakeLine(s, |raw|, recordLine, fails, o);
    if taken.Fine? && taken.value == 0 {
      TakenLine(raw, s, recordLine, fails, o);
      if raw != [] {
        OpenIsParsed(raw, o);
      }
    } else if taken.Fine? {
      var n := taken.value;
      var place' := Place(false, place.line + 1);
      var longer, rest := raw + s[..n], s[n..];
      var mark := longer[..MarkLength(longer, place.first)];
      record := longer[|mark|..];
      LinesRead(raw, s, place.first, recordLine, fails, o);
      TakenLine(raw, s, recordLine, fails, o);
      MarkIsPassed(raw, s, n, place.first);
      assert raw + s == mark + record + rest;
      if BlankLine(record) {
        var blank := record;
        var behind;
        behind, record := ReadRecordIsAt([], rest, place', place'.line + 1, fails, o);
        skipped := mark + blank + behind;
        FoundBehind(raw, s, place.first, mark, blank, rest, behind, record,
                    NextFrom([], rest, place', place'.line + 1, fails, o), fails, o);
      } else {
        skipped := mark;
        LinePermitted(raw, s, place.first, recordLine, fails, o);
        FoundHere(raw, s, place.first, mark, record, rest, recordLine, place', fails, o);
        if o.multiline && Parse(record, o) == Fine(None) {
          EmptyIsParsed(o);
          ParsedLine(record, o);
          var lines := record;
          var none;
          none, record := ReadRecordIsAt(lines, rest, place', recordLine, fails, o);
          FoundLater(raw, s, place.first, mark, lines, rest, none, record,
                     NextFrom(lines, rest, place', recordLine, fails, o), fails, o);
        }
      }
    }
  }

  lemma InOrder(t: seq<byte>, mark: seq<byte>, blank: seq<byte>, later: seq<byte>, behind: seq<byte>, record: seq<byte>,
                rest: seq<byte>)
    requires t == mark + blank + later && (later == behind + record + rest || [] + later == behind + record + rest)
    ensures t == mark + blank + behind + record + rest
    ensures blank == [] && behind == [] ==> t == mark + record + rest
  {
    assert [] + later == later;
  }

  lemma MarkIsPassed(raw: seq<byte>, s: seq<byte>, n: nat, first: bool)
    requires 0 < n <= |s| && (first ==> raw == []) && (n == |s| || LineEnd(raw + s, |raw| + n))
    ensures var longer := raw + s[..n];
            var mark := longer[..MarkLength(longer, first)];
            && (mark == [] || (first && mark == BYTE_ORDER_MARK)) && PassedOver(mark, first)
            && (first && BYTE_ORDER_MARK <= s ==> mark == BYTE_ORDER_MARK)
  {
    var longer := raw + s[..n];
    if first && BYTE_ORDER_MARK <= s {
      assert longer == s[..n];
      assert raw + s == s;
      assert s[..3] == BYTE_ORDER_MARK && s[0] == 0xEF && s[1] == 0xBB && s[2] == 0xBF;
      assert n >= 3;
    }
  }

  /** The next record of a stream. */
  lemma NextRecordIsAt(s: seq<byte>, place: Place, fails: bool, o: Options)
    returns (skipped: seq<byte>, record: seq<byte>)
    ensures Found([], s, place.first, skipped, record, NextRecord(s, place, fails, o), fails, o)
  {
    hide NextFrom, Found;
    skipped, record := ReadRecordIsAt([], s, place, place.line + 1, fails, o);
  }

  // ---------------------------------------------------------------- every record is read

  /** Lines that end within the first `m` bytes. */
  function LinesTo(t: seq<byte>, m: nat): (n: nat)
    requires m <= |t|
  {
    if m == 0 then 0 else LinesTo(t, m - 1) + if LineEnd(t, m) then 1 else 0
  }

  lemma {:induction false} LinesJoin(t: seq<byte>, d: nat, m: nat)
    requires d + m <= |t|
    ensures LinesTo(t, d + m) == LinesTo(t, d) + LinesTo(t[d..], m)
  {
    hide LineEnd;
    if m > 0 {
      LinesJoin(t, d, m - 1);
      LinesBehind(t, d, m);
    }
  }

  lemma {:induction false} NoLines(t: seq<byte>, m: nat)
    requires m <= |t| && forall k: nat | 0 < k <= m :: !LineEnd(t, k)
    ensures LinesTo(t, m) == 0
  {
    hide LineEnd;
    if m > 0 {
      NoLines(t, m - 1);
    }
  }

  /** Before a line end the next line can be taken. */
  lemma LineIsTaken(s: seq<byte>, k: nat, used: nat, line: nat, fails: bool, o: Options) returns (n: nat)
    requires LineEnd(s, k) && used + k <= o.recordLimit && (fails ==> k < |s| || s[k - 1] == LF)
    ensures TakeLine(s, used, line, fails, o) == Fine(n) && 0 < n <= k && LineEnd(s, n)
    ensures forall m: nat | 0 < m < n :: !LineEnd(s, m)
    ensures LinesTo(s, n) == 1
  {
    var i := ToTerminator(s);
    assert forall m: nat | 0 < m < i :: !LineEnd(s, m);
    if i < k {
      assert Terminator(s[i]);
    } else {
      assert k == |s| && !Terminator(s[k - 1]);
    }
    n := if i == |s| then i else if s[i] == CR && i + 1 < |s| && s[i + 1] == LF then i + 2 else i + 1;
    if n == i + 2 {
      assert !LineEnd(s, i + 1);
    }
    if 0 < i < n {
      assert !LineEnd(s, i);
    }
    NoLines(s, n - 1);
  }

  /** Input that fails fails behind the record, not in it. */
  predicate Arrives(t: seq<byte>, m: nat, fails: bool) {
    0 < m <= |t| && (fails ==> m < |t| || t[m - 1] == LF)
  }

  /** A record of several lines is read only where such records are allowed. */
  ghost predicate Allowed(t: seq<byte>, m: nat, o: Options) {
    !o.multiline ==> forall k: nat | 0 < k < m :: !LineEnd(t, k)
  }

  lemma WholeIsParsed(record: seq<byte>, cells: seq<Cell>, o: Options)
    requires exists body :: LineWithBody(record, body) && IsRecord(body, cells, o)
    ensures Parse(record, o) == Fine(Some(cells))
  {
    hide IsRecord, LineWithBody, BodyLength, ParseFields;
    var body :| LineWithBody(record, body) && IsRecord(body, cells, o);
    OneBody(record, body);
    RecordIsParsed(body, cells, o);
  }

  lemma OpenIsParsed(lines: seq<byte>, o: Options)
    requires OpenLines(lines, o)
    ensures Parse(lines, o) == Fine(None)
  {
    hide IsOpenRecord, LineWithBody, BodyLength, ParseFields;
    var body, before :| LineWithBody(lines, body) && IsOpenRecord(body, before, o);
    OneBody(lines, body);
    OpenRecordIsParsed(body, before, o);
  }

  /** A record is read to its end, over as many lines as it has. */
  lemma {:induction false} RecordIsRead(raw: seq<byte>, s: seq<byte>, record: seq<byte>, cells: seq<Cell>, place: Place,
                                        recordLine: nat, fails: bool, o: Options)
    requires RecordAt(raw + s, record, cells, o) && record != [] && |record| <= o.recordLimit && !place.first
    requires raw <= record && |raw| < |record|
    requires Arrives(raw + s, |record|, fails) && Allowed(raw + s, |record|, o)
    ensures var k := |record| - |raw|;
            && k <= |s|
            && NextFrom(raw, s, place, recordLine, fails, o)
               == Rec(recordLine, cells, Place(false, place.line + LinesTo(s, k)), s[k..])
    decreases |s|
  {
    hide TakeLine, Parse, BlankLine, OpenLines, ValidUtf8, LineEnd, NextFrom, LinesTo, LineWithBody, IsRecord,
         Terminator;
    var k := |record| - |raw|;
    LineOfRecord(raw, s, k);
    LineDecides(raw, s, place, recordLine, fails, o);
    var n := LineIsTaken(s, k, |raw|, recordLine, fails, o);
    var lines := raw + s[..n];
    assert lines + s[n..] == raw + s && lines == (raw + s)[..|lines|];
    assert lines <= record;
    NotBlank(lines);
    if n == k {
      assert lines == record;
      WholeIsParsed(record, cells, o);
    } else {
      LineOfRecord(raw, s, n);
      assert LineEnd(raw + s, |lines|);
      OpenIsParsed(lines, o);
      RecordIsRead(lines, s[n..], record, cells, Place(false, place.line + 1), recordLine, fails, o);
      LinesJoin(s, n, k - n);
    }
  }

  lemma LineOfRecord(raw: seq<byte>, s: seq<byte>, n: nat)
    requires n > 0
    ensures LineEnd(raw + s, |raw| + n) <==> LineEnd(s, n)
  {
    assert (raw + s)[|raw|..] == s;
    LinesBehind(raw + s, |raw|, n);
  }

  /** Blank lines in front of a record count as lines and say nothing. */
  lemma {:induction false} BlanksArePassed(blank: seq<byte>, s: seq<byte>, place: Place, fails: bool, o: Options)
    requires PassedOver(blank, false) && s != [] && !Terminator(s[0]) && !place.first
    requires blank != [] ==> o.recordLimit >= 2
    ensures NextRecord(blank + s, place, fails, o)
            == NextRecord(s, Place(false, place.line + LinesTo(blank + s, |blank|)), fails, o)
    decreases |blank|
  {
    hide TakeLine, ValidUtf8, NextFrom, LinesTo, Parse;
    if blank == [] {
      assert blank + s == s;
      NoLines(s, 0);
    } else {
      var t := blank + s;
      assert blank[0] in blank && t[|blank|] == s[0];
      BlankEnd(blank, s);
      var k := if blank[0] == CR && t[1] == LF then 2 else 1;
      var n := LineIsTaken(t, k, 0, place.line + 1, fails, o);
      assert n == k;
      LineDecides([], t, place, place.line + 1, fails, o);
      assert [] + t[..n] == t[..n];
      assert BlankLine(t[..n]);
      assert t[n..] == blank[n..] + s;
      BlanksArePassed(blank[n..], s, Place(false, place.line + 1), fails, o);
      LinesJoin(t, n, |blank| - n);
    }
  }

  lemma BlankEnd(blank: seq<byte>, s: seq<byte>)
    requires blank != [] && s != [] && !Terminator(s[0]) && forall b | b in blank :: Terminator(b)
    ensures var t := blank + s;
            var k := if blank[0] == CR && t[1] == LF then 2 else 1;
            k <= |blank| && k < |t| && LineEnd(t, k) && (k == 2 ==> !LineEnd(t, 1)) && BlankLine(t[..k])
  {
    var t := blank + s;
    assert blank[0] in blank;
    if |blank| == 1 {
      assert t[1] == s[0];
    }
  }

  /** A mark at the start of a stream belongs to its first line and is dropped from it. */
  lemma MarkIsDropped(s: seq<byte>, n: nat, line: nat, fails: bool, o: Options)
    requires LineEnd(s, n) && 3 + n <= o.recordLimit && Arrives(s, n, fails)
    ensures NextRecord(BYTE_ORDER_MARK + s, Place(true, line), fails, o) == NextRecord(s, Place(false, line), fails, o)
  {
    hide ValidUtf8, NextFrom, Parse, BlankLine, TakeLine, LinesTo, LineEnd;
    var t := BYTE_ORDER_MARK + s;
    var k := LineIsTaken(s, n, 0, line + 1, fails, o);
    MarkInLine(s, n, k, line + 1, fails, o);
    LineDecides([], t, Place(true, line), line + 1, fails, o);
    LineDecides([], s, Place(false, line), line + 1, fails, o);
    assert [] + s[..k] == s[..k] && ([] + t[..3 + k])[3..] == s[..k] && BYTE_ORDER_MARK <= [] + t[..3 + k];
    assert t[3 + k..] == s[k..];
  }

  lemma MarkInLine(s: seq<byte>, n: nat, k: nat, line: nat, fails: bool, o: Options)
    requires LineEnd(s, n) && 3 + n <= o.recordLimit && Arrives(s, n, fails)
    requires 0 < k <= n && LineEnd(s, k) && forall m: nat | 0 < m < k :: !LineEnd(s, m)
    ensures TakeLine(BYTE_ORDER_MARK + s, 0, line, fails, o) == Fine(3 + k)
  {
    hide TakeLine, LinesTo, LineEnd;
    var t := BYTE_ORDER_MARK + s;
    MarkEndsNoLine(s);
    assert t[3..] == s;
    LinesBehind(t, 3, n);
    var k' := LineIsTaken(t, 3 + n, 0, line, fails, o);
    LinesBehind(t, 3, k);
    assert k' > 3;
    LinesBehind(t, 3, k' - 3);
    assert k' == 3 + k;
  }

  lemma MarkIsNoLine(s: seq<byte>, m: nat)
    requires m <= |s| && s != []
    ensures LinesTo(BYTE_ORDER_MARK + s, 3 + m) == LinesTo(s, m)
  {
    hide LineEnd, LinesTo;
    var t := BYTE_ORDER_MARK + s;
    assert t[3..] == s;
    MarkEndsNoLine(s);
    LinesJoin(t, 3, m);
    NoLines(t, 3);
  }

  lemma MarkEndsNoLine(s: seq<byte>)
    requires s != []
    ensures forall m: nat | m <= 3 :: !LineEnd(BYTE_ORDER_MARK + s, m)
  {
    var t := BYTE_ORDER_MARK + s;
    assert t[0] == 0xEF && t[1] == 0xBB && t[2] == 0xBF;
  }

  /** Without a mark the first record is read like any other. */
  lemma NoMark(s: seq<byte>, n: nat, line: nat, fails: bool, o: Options)
    requires LineEnd(s, n) && n <= o.recordLimit && Arrives(s, n, fails) && !(BYTE_ORDER_MARK <= s)
    ensures NextRecord(s, Place(true, line), fails, o) == NextRecord(s, Place(false, line), fails, o)
  {
    hide ValidUtf8, NextFrom, Parse, BlankLine, TakeLine, LinesTo, LineEnd;
    var k := LineIsTaken(s, n, 0, line + 1, fails, o);
    NoMarkIn(s, k);
    LineDecides([], s, Place(true, line), line + 1, fails, o);
    LineDecides([], s, Place(false, line), line + 1, fails, o);
  }

  lemma NoMarkIn(s: seq<byte>, k: nat)
    requires k <= |s| && !(BYTE_ORDER_MARK <= s)
    ensures !(BYTE_ORDER_MARK <= [] + s[..k])
  {
    assert BYTE_ORDER_MARK <= s[..k] ==> BYTE_ORDER_MARK <= s;
    assert [] + s[..k] == s[..k];
  }

  /** Room for the record and, where something is passed over, for a mark with a blank line. */
  predicate Roomy(skipped: seq<byte>, record: seq<byte>, o: Options) {
    |record| + (if skipped == [] then 0 else 5) <= o.recordLimit
  }

  lemma RecordStarts(record: seq<byte>, rest: seq<byte>, cells: seq<Cell>, o: Options)
    requires record != [] && RecordAt(record + rest, record, cells, o)
    ensures !Terminator((record + rest)[0])
  {
    hide OpenUpTo, ValidUtf8, LineEnd;
  }

  lemma RecordBehindBlanks(blank: seq<byte>, record: seq<byte>, rest: seq<byte>, cells: seq<Cell>, place: Place,
                           fails: bool, o: Options)
    requires PassedOver(blank, false) && record != [] && RecordAt(record + rest, record, cells, o) && !place.first
    requires Roomy(blank, record, o) && Arrives(record + rest, |record|, fails) && Allowed(record + rest, |record|, o)
    ensures var t := blank + (record + rest);
            NextRecord(t, place, fails, o)
            == Rec(place.line + LinesTo(t, |blank|) + 1, cells, Place(false, place.line + LinesTo(t, |blank + record|)),
                   rest)
  {
    hide ValidUtf8, NextFrom, LinesTo, PassedOver, Allowed, RecordAt, LineEnd, Terminator, Arrives;
    var s := record + rest;
    var place' := Place(false, place.line + LinesTo(blank + s, |blank|));
    RecordStarts(record, rest, cells, o);
    BlanksArePassed(blank, s, place, fails, o);
    assert [] + s == s;
    RecordIsRead([], s, record, cells, place', place'.line + 1, fails, o);
    assert (blank + s)[|blank|..] == s;
    LinesJoin(blank + s, |blank|, |record|);
    assert |blank + record| == |blank| + |record| && s[|record|..] == rest;
  }

  /** The first line in front of a record, or the record. */
  lemma SomeLineEnd(blank: seq<byte>, record: seq<byte>, rest: seq<byte>, cells: seq<Cell>, fails: bool, o: Options)
    returns (n: nat)
    requires PassedOver(blank, false) && record != [] && RecordAt(record + rest, record, cells, o)
    requires Arrives(record + rest, |record|, fails)
    ensures var t := blank + (record + rest);
            LineEnd(t, n) && Arrives(t, n, fails) && n <= if blank == [] then |record| else 2
  {
    hide ValidUtf8, OpenUpTo;
    var s := record + rest;
    if blank == [] {
      n := |record|;
      assert blank + s == s;
    } else {
      BlankEnd(blank, s);
      n := if blank[0] == CR && (blank + s)[1] == LF then 2 else 1;
    }
  }

  lemma MarkAndBlank(skipped: seq<byte>, s: seq<byte>, first: bool)
    requires PassedOver(skipped, first) && (first && BYTE_ORDER_MARK <= skipped + s ==> BYTE_ORDER_MARK <= skipped)
    ensures var marked := first && BYTE_ORDER_MARK <= skipped + s;
            if marked then BYTE_ORDER_MARK <= skipped && PassedOver(skipped[3..], false) else PassedOver(skipped, false)
  {
  }

  /** For every stream and every choice of options: the record behind the mark and the blank lines is the next one
      read, under the number of its first line, and reading goes on behind it. */
  lemma RecordIsNext(skipped: seq<byte>, record: seq<byte>, rest: seq<byte>, cells: seq<Cell>, place: Place,
                     fails: bool, o: Options)
    requires PassedOver(skipped, place.first) && record != [] && RecordAt(record + rest, record, cells, o)
    requires place.first && BYTE_ORDER_MARK <= skipped + record + rest ==> BYTE_ORDER_MARK <= skipped
    requires Roomy(skipped, record, o) && Arrives(record + rest, |record|, fails) && Allowed(record + rest, |record|, o)
    ensures var s := skipped + record + rest;
            NextRecord(s, place, fails, o)
            == Rec(place.line + LinesTo(s, |skipped|) + 1, cells,
                   Place(false, place.line + LinesTo(s, |skipped + record|)), rest)
  {
    hide ValidUtf8, NextFrom, LinesTo, RecordAt, PassedOver, Allowed;
    var s := skipped + record + rest;
    var marked := place.first && BYTE_ORDER_MARK <= s;
    var blank := if marked then skipped[3..] else skipped;
    MarkAndBlank(skipped, record + rest, place.first);
    var t := blank + (record + rest);
    assert s == if marked then BYTE_ORDER_MARK + t else t;
    RecordBehindBlanks(blank, record, rest, cells, Place(false, place.line), fails, o);
    if place.first {
      var n := SomeLineEnd(blank, record, rest, cells, fails, o);
      if marked {
        MarkIsDropped(t, n, place.line, fails, o);
        MarkIsNoLine(t, |blank|);
        MarkIsNoLine(t, |blank + record|);
      } else {
        NoMark(t, n, place.line, fails, o);
      }
    }
  }

  predicate SaysFrom(body: seq<byte>, start: nat, cell: Cell, o: Options) {
    && start <= |body| && (cell.quoted <==> StartsQuoted(body[start..], o))
    && (!cell.quoted ==> TextToDelimiter(body[start..], cell.text, o))
  }

  /** For every stream and every choice of options: the fields of a record that is read stand in its bytes one behind
      another, and each is quoted exactly when its bytes start with the quote (behind blanks, where text is trimmed).
      The others say all their bytes, a quote among them too. */
  lemma FieldsAreRead(s: seq<byte>, place: Place, fails: bool, o: Options)
    returns (skipped: seq<byte>, record: seq<byte>, body: seq<byte>, starts: seq<nat>, ends: seq<nat>)
    ensures var next := NextRecord(s, place, fails, o);
            next.Rec? ==>
              && s == skipped + record + next.rest && PassedOver(skipped, place.first) && LineWithBody(record, body)
              && FieldsStand(body, next.cells, starts, ends, o)
              && forall i | 0 <= i < |next.cells| :: SaysFrom(body, starts[i], next.cells[i], o)
  {
    hide NextFrom, IsRecord, IsField, LineWithBody, PassedOver, OpenUpTo, ValidUtf8, StartsQuoted, TextToDelimiter,
         DelimiterFrom;
    skipped, record := NextRecordIsAt(s, place, fails, o);
    body, starts, ends := [], [], [];
    var next := NextRecord(s, place, fails, o);
    if next.Rec? {
      assert [] + s == s;
      body :| LineWithBody(record, body) && IsRecord(body, next.cells, o);
      starts, ends := FieldsOf(body, next.cells, o);
      forall i | 0 <= i < |next.cells| ensures SaysFrom(body, starts[i], next.cells[i], o) {
        assert FieldStands(body, next.cells, starts, ends, i, o);
        FieldSays(body[starts[i]..], ends[i] - starts[i], next.cells[i], o);
      }
    }
  }

  // ---------------------------------------------------------------- where no record is read

  /** These lines are refused for a field in them, or are no text. */
  ghost predicate BadLines(lines: seq<byte>, e: CsvError, o: Options) {
    exists body, before :: LineWithBody(lines, body)
      && (IsBadRecord(body, before, e, o) || (e == BadUtf8 && IsRecord(body, before, o) && !ValidUtf8(lines)))
  }

  /** The next line is too long for the record. */
  ghost predicate TooLongNext(lines: seq<byte>, rest: seq<byte>, o: Options) {
    forall m: nat | LineEnd(rest, m) :: |lines| + m > o.recordLimit
  }

  /** The input fails in the next line, or right behind it where a line feed might follow. */
  ghost predicate FailsNext(rest: seq<byte>) {
    (forall m: nat | m < |rest| :: !LineEnd(rest, m)) && (rest == [] || rest[|rest| - 1] != LF)
  }

  /** Why no record is read, when these lines of it were read and `rest` follows. */
  ghost predicate Reason(lines: seq<byte>, rest: seq<byte>, e: CsvError, fails: bool, o: Options) {
    match e
    case RecordTooLong(_) => TooLongNext(lines, rest, o)
    case LineFeedTooLong(_) => TooLongNext(lines, rest, o)
    case InputFailed(_) => fails && FailsNext(rest)
    case Unclosed(_) => rest == [] && !fails && OpenLines(lines, o)
    case MultilineNeeded(_) => !o.multiline && OpenLines(lines, o)
    case _ => BadLines(lines, e, o)
  }

  /** An error names the first line of its record. */
  predicate Names(e: CsvError, line: nat) {
    match e
    case RecordTooLong(n) => n == line
    case LineFeedTooLong(n) => n == line
    case InputFailed(n) => n == line
    case Unclosed(n) => n == line
    case MultilineNeeded(n) => n == line
    case _ => true
  }

  /** Why reading stops: nothing but blank lines is left, or the record behind them is refused. */
  ghost predicate Stopped(raw: seq<byte>, s: seq<byte>, first: bool, skipped: seq<byte>, lines: seq<byte>, line: nat,
                          next: Next, fails: bool, o: Options) {
    && (next.End? ==> raw == [] && PassedOver(s, first) && !fails)
    && (next.Fail? ==>
          && Refused(raw + s, first, skipped, lines, next.error, fails, o) && (raw != [] ==> skipped == [])
          && Names(next.error, line + LinesBefore(raw, s, skipped)))
  }

  /** Lines passed over in front of a record of which nothing was read before. */
  function LinesBefore(raw: seq<byte>, s: seq<byte>, skipped: seq<byte>): nat {
    if raw == [] && |skipped| <= |s| then LinesTo(s, |skipped|) else 0
  }

  ghost predicate Refused(t: seq<byte>, first: bool, skipped: seq<byte>, lines: seq<byte>, e: CsvError, fails: bool,
                          o: Options) {
    skipped + lines <= t && PassedOver(skipped, first) && Reason(lines, t[|skipped + lines|..], e, fails, o)
  }

  lemma NoLineTaken(raw: seq<byte>, s: seq<byte>, line: nat, fails: bool, o: Options)
    requires TakeLine(s, |raw|, line, fails, o).Failed?
    ensures Reason(raw, s, TakeLine(s, |raw|, line, fails, o).error, fails, o)
    ensures Names(TakeLine(s, |raw|, line, fails, o).error, line)
  {
    hide OpenLines, BadLines;
    var n := ToTerminator(s);
    forall m: nat | 0 < m <= n && m < |s| ensures !LineEnd(s, m) {
      assert !Terminator(s[m - 1]);
    }
  }

  lemma StoppedAtLine(raw: seq<byte>, s: seq<byte>, first: bool, line: nat, fails: bool, o: Options)
    requires TakeLine(s, |raw|, line, fails, o).Failed?
    ensures Stopped(raw, s, first, [], raw, line, Fail(TakeLine(s, |raw|, line, fails, o).error), fails, o)
  {
    hide TakeLine, Reason, LineEnd;
    NoLineTaken(raw, s, line, fails, o);
    assert [] + raw <= raw + s && (raw + s)[|[] + raw|..] == s;
  }

  lemma RefusedLine(lines: seq<byte>, o: Options)
    ensures var r := Parse(lines, o);
            && (r.Failed? ==> BadLines(lines, r.error, o))
            && (r.Fine? && r.value.Some? && !ValidUtf8(lines) ==> BadLines(lines, BadUtf8, o))
  {
    hide ParseFields, IsRecord, IsBadRecord, LineWithBody, BodyLength, ValidUtf8;
    BodyIs(lines);
    var body := lines[..BodyLength(lines)];
    var before := RefusedRecord(body, o);
    var open := ParsedIsRecord(body, o);
    var r := Parse(lines, o);
    if r.Fine? && r.value.Some? {
      assert IsRecord(body, r.value.value, o);
    }
  }

  /** Errors of a parsed line bear no line. */
  lemma {:induction false} ParseErrors(s: seq<byte>, o: Options)
    ensures var r := ParseFields(s, o);
            r.Failed? ==> r.error in {FieldTooLong, AfterQuote, BadUtf8}
    decreases |s|
  {
    hide FieldAt;
    FieldErrors(s, o);
    var r := FieldAt(s, o);
    if r.Got? && r.rest != [] {
      ParseErrors(r.rest[|o.delimiter|..], o);
    }
  }

  lemma FieldErrors(s: seq<byte>, o: Options)
    ensures var r := FieldAt(s, o);
            r.Wrong? ==> r.error in {FieldTooLong, AfterQuote, BadUtf8}
  {
    hide Blanks, Quoted;
    var start := s[Blanks(s, o)..];
    if o.quote <= start {
      var tokens, rest := RefusedText(start[|o.quote|..], [], false, o);
    }
  }

  /** A line that is refused. */
  lemma StoppedHere(raw: seq<byte>, s: seq<byte>, first: bool, mark: seq<byte>, record: seq<byte>, rest: seq<byte>,
                    line: nat, place: Place, fails: bool, o: Options)
    requires raw + s == mark + record + rest && (raw != [] ==> mark == []) && PassedOver(mark, first)
    requires raw == [] && |mark| <= |s| && record != [] ==> LinesTo(s, |mark|) == 0
    ensures var r := Parse(record, o);
            && (r.Failed? ==> record != [] ==> Stopped(raw, s, first, mark, record, line, Fail(r.error), fails, o))
            && (r.Fine? && r.value.Some? && record != [] ==>
                  Stopped(raw, s, first, mark, record, line, Complete(line, record, r.value.value, place, rest),
                          fails, o))
            && (r == Fine(None) && !o.multiline && record != [] ==>
                  Stopped(raw, s, first, mark, record, line, Fail(MultilineNeeded(line)), fails, o))
  {
    hide Parse, ValidUtf8, LineEnd, OpenLines, BadLines, PassedOver, LinesTo;
    RefusedLine(record, o);
    OnlyFieldErrors(record, o);
    OpenLine(record, o);
    assert mark + record <= raw + s && (raw + s)[|mark + record|..] == rest;
  }

  lemma OnlyFieldErrors(lines: seq<byte>, o: Options)
    ensures Parse(lines, o).Failed? ==> Parse(lines, o).error in {FieldTooLong, AfterQuote, BadUtf8}
  {
    hide ParseFields, BodyLength;
    ParseErrors(lines[..BodyLength(lines)], o);
  }

  lemma OpenLine(lines: seq<byte>, o: Options)
    ensures Parse(lines, o) == Fine(None) ==> OpenLines(lines, o)
  {
    hide Parse, IsRecord, OpenLines;
    ParsedLine(lines, o);
  }

  /** At the end of input an open record is refused. */
  lemma StoppedAtEnd(raw: seq<byte>, first: bool, line: nat, o: Options)
    requires raw != [] && OpenLines(raw, o)
    ensures Stopped(raw, [], first, [], raw, line, Fail(Unclosed(line)), false, o)
  {
    hide OpenLines;
    assert [] + raw <= raw + [] && (raw + [])[|[] + raw|..] == [];
  }

  /** Behind a blank line. */
  lemma StoppedBehind(s: seq<byte>, first: bool, mark: seq<byte>, blank: seq<byte>, rest: seq<byte>,
                      behind: seq<byte>, lines: seq<byte>, line: nat, next: Next, fails: bool, o: Options)
    requires s == mark + blank + rest && (mark == [] || (first && mark == BYTE_ORDER_MARK))
    requires (forall b | b in blank :: Terminator(b)) && LinesTo(s, |mark + blank|) == 1
    requires Stopped([], rest, false, behind, lines, line + 1, next, fails, o)
    ensures Stopped([], s, first, mark + blank + behind, lines, line, next, fails, o)
  {
    hide Stopped, PassedOver, Terminator, Reason, LinesTo, Names;
    StoppedMeans(rest, false, behind, lines, line + 1, next, fails, o);
    if next.End? {
      Passed(mark, blank, rest, first);
      StopsEmpty(s, first, mark + blank + behind, lines, line, o);
    } else if next.Fail? {
      Passed(mark, blank, behind, first);
      LaterText(s, mark + blank, rest, behind, lines);
      LinesJoin(s, |mark + blank|, |behind|);
      Stops(s, first, mark + blank + behind, lines, line, next.error, fails, o);
    } else {
      ReadsOn([], s, first, mark + blank + behind, lines, line, next, fails, o);
    }
  }

  lemma StoppedMeans(s: seq<byte>, first: bool, skipped: seq<byte>, lines: seq<byte>, line: nat, next: Next,
                     fails: bool, o: Options)
    requires Stopped([], s, first, skipped, lines, line, next, fails, o)
    ensures next.End? ==> PassedOver(s, first) && !fails
    ensures next.Fail? ==> Refused(s, first, skipped, lines, next.error, fails, o) && |skipped| <= |s|
    ensures next.Fail? ==> Names(next.error, line + LinesTo(s, |skipped|))
  {
    hide PassedOver, Refused, LinesTo, Names, LinesBefore;
    assert [] + s == s;
    if next.Fail? {
      SkippedFits(s, first, skipped, lines, next.error, fails, o);
      AllBefore(s, skipped);
      var n := LinesTo(s, |skipped|);
      assert Names(next.error, line + n);
    }
  }

  lemma AllBefore(s: seq<byte>, skipped: seq<byte>)
    requires |skipped| <= |s|
    ensures LinesBefore([], s, skipped) == LinesTo(s, |skipped|)
  {
  }

  lemma SkippedFits(s: seq<byte>, first: bool, skipped: seq<byte>, lines: seq<byte>, e: CsvError, fails: bool,
                    o: Options)
    requires Refused(s, first, skipped, lines, e, fails, o)
    ensures |skipped| <= |s|
  {
    hide PassedOver, Reason;
  }

  lemma Stops(s: seq<byte>, first: bool, skipped: seq<byte>, lines: seq<byte>, line: nat, e: CsvError, fails: bool,
              o: Options)
    requires Refused(s, first, skipped, lines, e, fails, o) && |skipped| <= |s|
    requires Names(e, line + LinesTo(s, |skipped|))
    ensures Stopped([], s, first, skipped, lines, line, Fail(e), fails, o)
  {
    hide PassedOver, Refused, LinesTo, Names, LinesBefore;
    assert [] + s == s;
    AllBefore(s, skipped);
  }

  lemma StopsEmpty(s: seq<byte>, first: bool, skipped: seq<byte>, lines: seq<byte>, line: nat, o: Options)
    requires PassedOver(s, first)
    ensures Stopped([], s, first, skipped, lines, line, End, false, o)
  {
    hide PassedOver;
  }

  lemma LaterText(s: seq<byte>, front: seq<byte>, rest: seq<byte>, behind: seq<byte>, lines: seq<byte>)
    requires s == front + rest && behind + lines <= rest
    ensures s[|front|..] == rest && |front| + |behind| <= |s| && front + behind + lines <= s
    ensures s[|front + behind + lines|..] == rest[|behind + lines|..]
  {
    assert front + behind + lines == front + (behind + lines);
  }

  /** In an open record. */
  lemma StoppedLater(raw: seq<byte>, s: seq<byte>, first: bool, mark: seq<byte>, open: seq<byte>, rest: seq<byte>,
                     none: seq<byte>, lines: seq<byte>, line: nat, next: Next, fails: bool, o: Options)
    requires raw + s == mark + (open + rest) && open != [] && (raw != [] ==> mark == []) && PassedOver(mark, first)
    requires raw == [] ==> |mark| <= |s| && LinesTo(s, |mark|) == 0
    requires Stopped(open, rest, false, none, lines, line, next, fails, o)
    ensures Stopped(raw, s, first, mark, lines, line, next, fails, o)
  {
    hide PassedOver, Reason, LinesTo, Names;
    if next.Fail? {
      assert none + lines == lines;
      LaterText(raw + s, mark, open + rest, [], lines);
      assert mark + [] + lines == mark + lines && [] + lines == lines;
    }
  }

  /** The mark in front of more bytes of its line ends no line, and a blank line behind it is one line. */
  lemma MarkLines(s: seq<byte>, n: nat, d: nat)
    requires d <= n <= |s| && LineEnd(s, n) && forall m: nat | 0 < m < n :: !LineEnd(s, m)
    ensures d < n ==> LinesTo(s, d) == 0
    ensures LinesTo(s, n) == 1
  {
    assert n > 0;
    hide LineEnd;
    if d < n {
      NoLines(s, d);
    }
    NoLines(s, n - 1);
  }

  ghost predicate OneLineBehind(s: seq<byte>, mark: seq<byte>, record: seq<byte>) {
    && |mark| <= |s| && |mark + record| <= |s| && LinesTo(s, |mark + record|) == 1
    && (record != [] ==> LinesTo(s, |mark|) == 0)
  }

  /** How the next line splits into a mark and what follows it. */
  ghost predicate Splits(raw: seq<byte>, s: seq<byte>, first: bool, mark: seq<byte>, record: seq<byte>, rest: seq<byte>,
                         o: Options) {
    && raw + s == mark + record + rest && raw + s == mark + (record + rest) && |rest| < |s|
    && (mark == [] || (first && mark == BYTE_ORDER_MARK)) && PassedOver(mark, first) && (raw != [] ==> mark == [])
    && (raw == [] ==> OneLineBehind(s, mark, record))
    && (BlankLine(record) ==> raw == [] && forall b | b in record :: Terminator(b))
    && (record != [] && !BlankLine(record) ==>
          !Terminator(record[0]) && LineEnd(record + rest, |record|) && OpenUpTo(record + rest, |record|, o))
  }

  lemma LineSplits(raw: seq<byte>, s: seq<byte>, first: bool, line: nat, fails: bool, o: Options)
    requires Started(raw, s, first, o) && TakeLine(s, |raw|, line, fails, o).Fine?
    requires TakeLine(s, |raw|, line, fails, o).value > 0
    ensures var n := TakeLine(s, |raw|, line, fails, o).value;
            var longer := raw + s[..n];
            var d := MarkLength(longer, first);
            Splits(raw, s, first, longer[..d], longer[d..], s[n..], o)
  {
    hide TakeLine, OpenLines, OpenUpTo, LineEnd, Terminator, BlankLine, PassedOver, OneLineBehind, MarkLength;
    LinesRead(raw, s, first, line, fails, o);
    var n := TakeLine(s, |raw|, line, fails, o).value;
    TakenLine(raw, s, line, fails, o);
    MarkIsPassed(raw, s, n, first);
    var d := MarkLength(raw + s[..n], first);
    SplitText(raw, s, n, d);
    if raw == [] {
      assert raw + s == s && raw + s[..n] == s[..n];
      SplitLines(s, n, d);
    }
  }

  lemma SplitLines(s: seq<byte>, n: nat, d: nat)
    requires d <= n <= |s| && LineEnd(s, n) && forall m: nat | 0 < m < n :: !LineEnd(s, m)
    ensures OneLineBehind(s, s[..n][..d], s[..n][d..])
  {
    hide LineEnd, LinesTo;
    MarkLines(s, n, d);
    assert |s[..n][..d] + s[..n][d..]| == n;
  }

  lemma SplitText(raw: seq<byte>, s: seq<byte>, n: nat, d: nat)
    requires n <= |s| && d <= |raw| + n
    ensures var longer := raw + s[..n];
            && raw + s == longer[..d] + longer[d..] + s[n..] && raw + s == longer[..d] + (longer[d..] + s[n..])
            && |longer[..d] + longer[d..]| == |raw| + n
  {
    var longer := raw + s[..n];
    assert longer[..d] + longer[d..] == longer;
  }

  /** For every stream and every choice of options: where no record is read, the rest is blank, or the record behind
      the mark and the blank lines is refused, under the number of its first line, for the reason the error gives. */
  lemma {:induction false} ReadingStops(raw: seq<byte>, s: seq<byte>, place: Place, line: nat, fails: bool, o: Options)
    returns (skipped: seq<byte>, lines: seq<byte>)
    requires Started(raw, s, place.first, o) && (raw == [] ==> line == place.line + 1)
    ensures Stopped(raw, s, place.first, skipped, lines, line, NextFrom(raw, s, place, line, fails, o), fails, o)
    decreases |s|, 1
  {
    hide TakeLine, Parse, BlankLine, OpenLines, OpenUpTo, ValidUtf8, LineEnd, NextFrom, PassedOver, Complete, Reason,
         LinesTo, Stopped, Terminator, Splits;
    skipped, lines := [], raw;
    LineDecides(raw, s, place, line, fails, o);
    var taken := TakeLine(s, |raw|, line, fails, o);
    if taken.Failed? {
      StoppedAtLine(raw, s, place.first, line, fails, o);
    } else if taken.value == 0 {
      TakenLine(raw, s, line, fails, o);
      NotFailing(|raw|, line, fails, o);
      if raw != [] {
        OpenIsParsed(raw, o);
        StoppedAtEnd(raw, place.first, line, o);
      } else {
        AllBlank(place.first, line, o);
      }
    } else {
      var n := taken.value;
      var place' := Place(false, place.line + 1);
      var longer := raw + s[..n];
      var d := MarkLength(longer, place.first);
      LineSplits(raw, s, place.first, line, fails, o);
      if BlankLine(longer[d..]) {
        NotRaw(raw, s, place.first, longer[..d], longer[d..], s[n..], o);
        var behind;
        behind, lines := ReadingStops([], s[n..], place', place'.line + 1, fails, o);
        skipped := longer[..d] + longer[d..] + behind;
        StoppedBehind(s, place.first, longer[..d], longer[d..], s[n..], behind, lines, line,
                      NextFrom([], s[n..], place', place'.line + 1, fails, o), fails, o);
      } else {
        skipped := longer[..d];
        lines := StopsInLine(raw, s, place, longer[..d], longer[d..], s[n..], line, fails, o);
      }
    }
  }

  lemma NotRaw(raw: seq<byte>, s: seq<byte>, first: bool, mark: seq<byte>, blank: seq<byte>, rest: seq<byte>,
               o: Options)
    requires Splits(raw, s, first, mark, blank, rest, o) && BlankLine(blank)
    ensures raw == [] && s == mark + blank + rest && (mark == [] || (first && mark == BYTE_ORDER_MARK))
    ensures (forall b | b in blank :: Terminator(b)) && |mark + blank| <= |s| && LinesTo(s, |mark + blank|) == 1
  {
    hide LinesTo, Terminator, OpenUpTo, LineEnd, PassedOver, BlankLine;
    assert [] + s == s;
  }

  lemma {:induction false} StopsInLine(raw: seq<byte>, s: seq<byte>, place: Place, mark: seq<byte>, record: seq<byte>,
                                       rest: seq<byte>, line: nat, fails: bool, o: Options) returns (lines: seq<byte>)
    requires Splits(raw, s, place.first, mark, record, rest, o) && !BlankLine(record)
    ensures var place' := Place(false, place.line + 1);
            Stopped(raw, s, place.first, mark, lines, line,
                    match Parse(record, o)
                    case Failed(e) => Fail(e)
                    case Fine(Some(cells)) => Complete(line, record, cells, place', rest)
                    case Fine(None) => if o.multiline then NextFrom(record, rest, place', line, fails, o)
                                       else Fail(MultilineNeeded(line)), fails, o)
    decreases |s|, 0
  {
    hide Parse, BlankLine, OpenLines, OpenUpTo, ValidUtf8, LineEnd, NextFrom, PassedOver, Complete, LinesTo, Stopped,
         Terminator;
    var place' := Place(false, place.line + 1);
    lines := record;
    EmptyIsParsed(o);
    if record == [] {
      RecordRead(line, place', rest, o);
      ReadsOn(raw, s, place.first, mark, record, line, Complete(line, record, [Cell([], false)], place', rest),
              fails, o);
    } else {
      StoppedHere(raw, s, place.first, mark, record, rest, line, place', fails, o);
      if o.multiline && Parse(record, o) == Fine(None) {
        OpenLine(record, o);
        var none;
        none, lines := ReadingStops(record, rest, place', line, fails, o);
        StoppedLater(raw, s, place.first, mark, record, rest, none, lines, line,
                     NextFrom(record, rest, place', line, fails, o), fails, o);
      }
    }
  }

  lemma NotFailing(used: nat, line: nat, fails: bool, o: Options)
    requires TakeLine([], used, line, fails, o).Fine?
    ensures !fails
  {
  }

  lemma AllBlank(first: bool, line: nat, o: Options)
    ensures Stopped([], [], first, [], [], line, End, false, o)
  {
  }

  lemma RecordRead(line: nat, place: Place, rest: seq<byte>, o: Options)
    ensures Complete(line, [], [Cell([], false)], place, rest).Rec?
  {
  }

  lemma ReadsOn(raw: seq<byte>, s: seq<byte>, first: bool, skipped: seq<byte>, lines: seq<byte>, line: nat, next: Next,
                fails: bool, o: Options)
    requires next.Rec?
    ensures Stopped(raw, s, first, skipped, lines, line, next, fails, o)
  {
  }

  /** The end of reading, from the start of a record. */
  lemma NextRecordStops(s: seq<byte>, place: Place, fails: bool, o: Options)
    returns (skipped: seq<byte>, lines: seq<byte>)
    ensures Stopped([], s, place.first, skipped, lines, place.line + 1, NextRecord(s, place, fails, o), fails, o)
  {
    hide NextFrom, Stopped;
    skipped, lines := ReadingStops([], s, place, place.line + 1, fails, o);
  }
}
