/** What a CSV line says, as a grammar over its bytes: which fields are quoted, where they end and what they mean,
    for every choice of options.  The reader's functions are proved to agree with it. */
module CsvGrammar {
  import opened Bytes
  import opened CsvFormat
  import opened Results
  import opened Utf8

  // ---------------------------------------------------------------- the text of a quoted field

  /** A quoted text is a list of plain bytes and escapes. */
  datatype Token = Plain(b: byte) | TwoQuotes | SlashQuote | TwoSlashes

  function Spelled(t: Token, o: Options): (s: seq<byte>)
    ensures s != []
  {
    match t
    case Plain(b) => [b]
    case TwoQuotes => o.quote + o.quote
    case SlashQuote => [BACKSLASH] + o.quote
    case TwoSlashes => [BACKSLASH, BACKSLASH]
  }

  function Meant(t: Token, o: Options): seq<byte> {
    match t
    case Plain(b) => [b]
    case TwoQuotes => o.quote
    case SlashQuote => o.quote
    case TwoSlashes => [BACKSLASH]
  }

  function Spelling(tokens: seq<Token>, o: Options): seq<byte> {
    if tokens == [] then [] else Spelled(tokens[0], o) + Spelling(tokens[1..], o)
  }

  function Meaning(tokens: seq<Token>, o: Options): seq<byte> {
    if tokens == [] then [] else Meant(tokens[0], o) + Meaning(tokens[1..], o)
  }

  /** The token is the right reading of the bytes from here on: a byte is plain only if neither the quote nor,
      with backslash escapes, an escape starts there. */
  predicate TokenFits(t: Token, here: seq<byte>, o: Options)
    requires here != []
  {
    match t
    case TwoQuotes => true
    case SlashQuote => o.legacy && !(o.quote <= here)
    case TwoSlashes => o.legacy && !(o.quote <= here) && !(o.quote <= here[1..])
    case Plain(b) =>
      && !(o.quote <= here)
      && (o.legacy && b == BACKSLASH ==>
            !(o.quote <= here[1..]) && (|here| == 1 || here[1] != BACKSLASH))
  }

  predicate TokensFit(tokens: seq<Token>, tail: seq<byte>, o: Options) {
    tokens == []
    || (TokenFits(tokens[0], Spelling(tokens, o) + tail, o) && TokensFit(tokens[1..], tail, o))
  }

  predicate Escapes(tokens: seq<Token>) {
    exists t :: t in tokens && !t.Plain?
  }

  /** Behind the opening quote: the text, the closing quote, and the end of the field. */
  predicate ClosedText(s: seq<byte>, tokens: seq<Token>, rest: seq<byte>, o: Options) {
    && s == Spelling(tokens, o) + o.quote + rest && TokensFit(tokens, o.quote + rest, o)
    && !(o.quote <= rest) && (rest == [] || o.delimiter <= rest)
  }

  /** Behind the opening quote: only text. */
  predicate OpenText(s: seq<byte>, tokens: seq<Token>, o: Options) {
    s == Spelling(tokens, o) && TokensFit(tokens, [], o)
  }

  lemma ConsTokens(t: Token, tokens: seq<Token>, o: Options)
    ensures Spelling([t] + tokens, o) == Spelled(t, o) + Spelling(tokens, o)
    ensures Meaning([t] + tokens, o) == Meant(t, o) + Meaning(tokens, o)
    ensures Escapes([t] + tokens) <==> !t.Plain? || Escapes(tokens)
    ensures forall tail :: TokensFit([t] + tokens, tail, o)
              <==> TokenFits(t, Spelling([t] + tokens, o) + tail, o) && TokensFit(tokens, tail, o)
  {
    assert ([t] + tokens)[1..] == tokens && ([t] + tokens)[0] == t;
    if Escapes([t] + tokens) && t.Plain? {
      var x :| x in [t] + tokens && !x.Plain?;
      assert x in tokens;
    }
    if Escapes(tokens) {
      var x :| x in tokens && !x.Plain?;
      assert x in [t] + tokens;
    }
    if !t.Plain? {
      assert t in [t] + tokens;
    }
  }

  /** How the reader takes one token: what it reads as the text goes on behind it. */
  function TokenAt(s: seq<byte>, o: Options): (t: Option<Token>)
    requires s != []
    ensures t.Some? ==> Spelled(t.value, o) <= s && TokenFits(t.value, s, o)
  {
    var q := |o.quote|;
    if o.quote <= s then
      if o.quote <= s[q..] then (TwoAreThere(s, o.quote); Some(TwoQuotes)) else None
    else if o.legacy && s[0] == BACKSLASH && o.quote <= s[1..] then (SlashIsThere(s, o.quote); Some(SlashQuote))
    else if o.legacy && s[0] == BACKSLASH && |s| >= 2 && s[1] == BACKSLASH then Some(TwoSlashes)
    else Some(Plain(s[0]))
  }

  lemma TwoAreThere(s: seq<byte>, q: seq<byte>)
    requires q <= s && q <= s[|q|..]
    ensures q + q <= s
  {
    assert s == s[..|q|] + s[|q|..];
  }

  lemma SlashIsThere(s: seq<byte>, q: seq<byte>)
    requires s != [] && s[0] == BACKSLASH && q <= s[1..]
    ensures [BACKSLASH] + q <= s
  {
    assert s == [s[0]] + s[1..];
  }

  /** The reader's step for each token. */
  lemma TokenStep(s: seq<byte>, out: seq<byte>, escaped: bool, o: Options)
    requires s != [] && TokenAt(s, o).Some?
    ensures var t := TokenAt(s, o).value;
            var next := Quoted(s[|Spelled(t, o)|..], out + Meant(t, o), escaped || !t.Plain?, o);
            Quoted(s, out, escaped, o) == next
            || (Quoted(s, out, escaped, o) == Bad(FieldTooLong) && |out + Meant(t, o)| > o.limit)
  {
    var q := |o.quote|;
    if o.quote <= s {
      assert s[q..][q..] == s[2 * q..];
    }
  }

  lemma NoTokenStep(s: seq<byte>, out: seq<byte>, escaped: bool, o: Options)
    requires s != [] && TokenAt(s, o).None?
    ensures o.quote <= s && !(o.quote <= s[|o.quote|..])
    ensures var rest := s[|o.quote|..];
            Quoted(s, out, escaped, o) == if |out| > o.limit then Bad(FieldTooLong)
                                          else if rest == [] || o.delimiter <= rest then Closed(out, escaped, rest)
                                          else Bad(AfterQuote)
  {
  }

  lemma AtTextEnd(out: seq<byte>, escaped: bool, o: Options)
    ensures Quoted([], out, escaped, o) == if |out| > o.limit then Bad(FieldTooLong) else Open
  {
  }

  /** The reader takes exactly the tokens: the text it gives is spelled by them. */
  lemma {:induction false} ReadTokens(s: seq<byte>, out: seq<byte>, escaped: bool, o: Options)
    returns (tokens: seq<Token>)
    ensures var r := Quoted(s, out, escaped, o);
            && (r.Closed? ==> ClosedText(s, tokens, r.rest, o) && r.text == out + Meaning(tokens, o)
                              && |r.text| <= o.limit && r.escaped == (escaped || Escapes(tokens)))
            && (r.Open? ==> OpenText(s, tokens, o) && |out + Meaning(tokens, o)| <= o.limit)
    decreases |s|
  {
    hide Quoted, TokenAt, TokenFits, Meant, Escapes;
    tokens := [];
    NoEscapes(tokens);
    if s == [] {
      AtTextEnd(out, escaped, o);
    } else if TokenAt(s, o).None? {
      NoTokenStep(s, out, escaped, o);
      assert s == [] + o.quote + s[|o.quote|..];
    } else {
      var t := TokenAt(s, o).value;
      var n, out' := |Spelled(t, o)|, out + Meant(t, o);
      TokenStep(s, out, escaped, o);
      var more := ReadTokens(s[n..], out', escaped || !t.Plain?, o);
      tokens := [t] + more;
      ConsTokens(t, more, o);
      ConsText(s, t, more, o);
      assert out' + Meaning(more, o) == out + (Meant(t, o) + Meaning(more, o));
    }
  }

  /** A token in front of a text. */
  lemma ConsText(s: seq<byte>, t: Token, tokens: seq<Token>, o: Options)
    requires s != [] && Spelled(t, o) <= s && TokenFits(t, s, o)
    ensures forall rest :: ClosedText(s[|Spelled(t, o)|..], tokens, rest, o) ==> ClosedText(s, [t] + tokens, rest, o)
    ensures OpenText(s[|Spelled(t, o)|..], tokens, o) ==> OpenText(s, [t] + tokens, o)
  {
    hide TokenFits, Spelled;
    ConsTokens(t, tokens, o);
    var first, more := Spelled(t, o), s[|Spelled(t, o)|..];
    assert s == first + more;
    forall rest | ClosedText(more, tokens, rest, o) ensures ClosedText(s, [t] + tokens, rest, o) {
      assert first + (Spelling(tokens, o) + o.quote + rest) == (first + Spelling(tokens, o)) + (o.quote + rest);
      assert (first + Spelling(tokens, o)) + (o.quote + rest) == (first + Spelling(tokens, o)) + o.quote + rest;
    }
    if OpenText(more, tokens, o) {
      assert Spelling([t] + tokens, o) + [] == s;
    }
  }

  /** The right reading of the bytes is the one the reader takes. */
  lemma FitIsTaken(t: Token, s: seq<byte>, o: Options)
    requires s != [] && Spelled(t, o) <= s && TokenFits(t, s, o)
    ensures TokenAt(s, o) == Some(t)
  {
    match t {
      case Plain(b) =>
      case TwoQuotes =>
        assert s[..|o.quote|] == o.quote && s[|o.quote|..2 * |o.quote|] == o.quote;
      case SlashQuote =>
        assert s[1..][..|o.quote|] == s[..1 + |o.quote|][1..];
      case TwoSlashes =>
    }
  }

  /** Conversely, bytes that spell a list of tokens are read as that list. */
  lemma {:induction false} TokensAreRead(s: seq<byte>, tokens: seq<Token>, tail: seq<byte>, out: seq<byte>,
                                         escaped: bool, o: Options)
    requires s == Spelling(tokens, o) + tail && TokensFit(tokens, tail, o) && |out + Meaning(tokens, o)| <= o.limit
    ensures Quoted(s, out, escaped, o) == Quoted(tail, out + Meaning(tokens, o), escaped || Escapes(tokens), o)
    decreases |tokens|
  {
    hide Quoted, TokenAt, TokenFits, Meant, Escapes, Spelled;
    if tokens == [] {
      assert s == tail && out + Meaning(tokens, o) == out;
      NoEscapes(tokens);
    } else {
      var t, more := tokens[0], tokens[1..];
      assert tokens == [t] + more;
      ConsTokens(t, more, o);
      var n, out' := |Spelled(t, o)|, out + Meant(t, o);
      assert s == Spelled(t, o) + (Spelling(more, o) + tail);
      FitIsTaken(t, s, o);
      TokenStep(s, out, escaped, o);
      assert out' + Meaning(more, o) == out + Meaning(tokens, o);
      TokensAreRead(s[n..], more, tail, out', escaped || !t.Plain?, o);
    }
  }

  /** The text goes on so far. */
  predicate TextSoFar(s: seq<byte>, tokens: seq<Token>, rest: seq<byte>, o: Options) {
    s == Spelling(tokens, o) + rest && TokensFit(tokens, rest, o)
  }

  /** The text is closed, and something else than a delimiter follows. */
  predicate StrayText(s: seq<byte>, tokens: seq<Token>, rest: seq<byte>, o: Options) {
    && s == Spelling(tokens, o) + o.quote + rest && TokensFit(tokens, o.quote + rest, o)
    && !(o.quote <= rest) && rest != [] && !(o.delimiter <= rest)
  }

  /** What is wrong with a text that is refused. */
  predicate BadText(s: seq<byte>, before: seq<byte>, tokens: seq<Token>, rest: seq<byte>, e: CsvError, o: Options) {
    || (e == FieldTooLong && TextSoFar(s, tokens, rest, o) && |before + Meaning(tokens, o)| > o.limit)
    || (e == AfterQuote && StrayText(s, tokens, rest, o) && |before + Meaning(tokens, o)| <= o.limit)
  }

  lemma ConsSoFar(s: seq<byte>, t: Token, tokens: seq<Token>, rest: seq<byte>, o: Options)
    requires s != [] && Spelled(t, o) <= s && TokenFits(t, s, o) && TextSoFar(s[|Spelled(t, o)|..], tokens, rest, o)
    ensures TextSoFar(s, [t] + tokens, rest, o)
  {
    hide TokenFits, Spelled, Escapes, Meant;
    ConsTokens(t, tokens, o);
    assert s == Spelled(t, o) + s[|Spelled(t, o)|..];
    assert Spelled(t, o) + (Spelling(tokens, o) + rest) == (Spelled(t, o) + Spelling(tokens, o)) + rest;
  }

  lemma ConsStray(s: seq<byte>, t: Token, tokens: seq<Token>, rest: seq<byte>, o: Options)
    requires s != [] && Spelled(t, o) <= s && TokenFits(t, s, o) && StrayText(s[|Spelled(t, o)|..], tokens, rest, o)
    ensures StrayText(s, [t] + tokens, rest, o)
  {
    hide TokenFits, Spelled, Escapes, Meant, TokensFit;
    assert Spelling(tokens, o) + o.quote + rest == Spelling(tokens, o) + (o.quote + rest);
    ConsSoFar(s, t, tokens, o.quote + rest, o);
    assert Spelling([t] + tokens, o) + (o.quote + rest) == Spelling([t] + tokens, o) + o.quote + rest;
  }

  lemma ConsBadText(s: seq<byte>, before: seq<byte>, t: Token, tokens: seq<Token>, rest: seq<byte>, e: CsvError,
                    o: Options)
    requires s != [] && Spelled(t, o) <= s && TokenFits(t, s, o)
    requires BadText(s[|Spelled(t, o)|..], before + Meant(t, o), tokens, rest, e, o)
    ensures BadText(s, before, [t] + tokens, rest, e, o)
  {
    hide TokenFits, Spelled, Meant, TextSoFar, StrayText, Escapes, TokensFit;
    ConsTokens(t, tokens, o);
    assert before + Meant(t, o) + Meaning(tokens, o) == before + (Meant(t, o) + Meaning(tokens, o));
    if e == FieldTooLong {
      ConsSoFar(s, t, tokens, rest, o);
    } else {
      ConsStray(s, t, tokens, rest, o);
    }
  }

  lemma {:induction false} RefusedText(s: seq<byte>, out: seq<byte>, escaped: bool, o: Options)
    returns (tokens: seq<Token>, rest: seq<byte>)
    ensures var r := Quoted(s, out, escaped, o);
            r.Bad? ==> BadText(s, out, tokens, rest, r.error, o)
    decreases |s|
  {
    hide Quoted, TokenAt, TokenFits, Meant;
    tokens, rest := [], s;
    assert out + Meaning([], o) == out && Spelling([], o) + s == s;
    if s == [] {
      AtTextEnd(out, escaped, o);
    } else if TokenAt(s, o).None? {
      NoTokenStep(s, out, escaped, o);
      if |out| <= o.limit {
        rest := s[|o.quote|..];
        assert s == [] + o.quote + rest;
      }
    } else {
      var t := TokenAt(s, o).value;
      var next, out' := s[|Spelled(t, o)|..], out + Meant(t, o);
      TokenStep(s, out, escaped, o);
      if Quoted(s, out, escaped, o) == Quoted(next, out', escaped || !t.Plain?, o) {
        tokens, rest := RefusedText(next, out', escaped || !t.Plain?, o);
        if Quoted(s, out, escaped, o).Bad? {
          ConsBadText(s, out, t, tokens, rest, Quoted(s, out, escaped, o).error, o);
        }
        tokens := [t] + tokens;
      } else {
        assert TextSoFar(next, [], next, o);
        assert out' + Meaning([], o) == out';
        ConsBadText(s, out, t, [], next, FieldTooLong, o);
        tokens, rest := [t], next;
        assert [t] + [] == [t];
      }
    }
  }

  lemma NoEscapes(tokens: seq<Token>)
    requires tokens == []
    ensures !Escapes(tokens)
  {
  }

  lemma ClosedIsRead(s: seq<byte>, tokens: seq<Token>, rest: seq<byte>, o: Options)
    requires ClosedText(s, tokens, rest, o) && |Meaning(tokens, o)| <= o.limit
    ensures Quoted(s, [], false, o) == Closed(Meaning(tokens, o), Escapes(tokens), rest)
  {
    hide Spelling, Meaning, TokensFit, Escapes;
    assert [] + Meaning(tokens, o) == Meaning(tokens, o);
    assert s == Spelling(tokens, o) + (o.quote + rest);
    TokensAreRead(s, tokens, o.quote + rest, [], false, o);
    var end := o.quote + rest;
    assert end[|o.quote|..] == rest;
    NoTokenStep(end, Meaning(tokens, o), Escapes(tokens), o);
  }

  lemma OpenIsRead(s: seq<byte>, tokens: seq<Token>, o: Options)
    requires OpenText(s, tokens, o) && |Meaning(tokens, o)| <= o.limit
    ensures Quoted(s, [], false, o) == Open
  {
    hide Spelling, Meaning, TokensFit, Escapes;
    assert [] + Meaning(tokens, o) == Meaning(tokens, o) && s == Spelling(tokens, o) + [];
    TokensAreRead(s, tokens, [], [], false, o);
    AtTextEnd(Meaning(tokens, o), Escapes(tokens), o);
  }

  // ---------------------------------------------------------------- fields

  predicate BlankAt(s: seq<byte>, k: nat, o: Options)
    requires k < |s|
  {
    (s[k] == SPACE || s[k] == TAB) && !(o.delimiter <= s[k..])
  }

  /** A field that starts with `s` is quoted: the quote comes first or, when text is trimmed, behind all blanks. */
  predicate QuoteAt(s: seq<byte>, b: nat, o: Options) {
    && b <= |s| && o.quote <= s[b..]
    && if o.trim then (forall k | 0 <= k < b :: BlankAt(s, k, o)) && !BlankAt(s, b, o) else b == 0
  }

  ghost predicate IsQuoted(s: seq<byte>, o: Options) {
    exists b: nat :: QuoteAt(s, b, o)
  }

  /** The first `n` bytes are an unquoted field: all bytes before the first delimiter, whatever they are. */
  ghost predicate PlainField(s: seq<byte>, n: nat, text: seq<byte>, o: Options) {
    && !IsQuoted(s, o) && n <= |s| && text == s[..n] && n <= o.limit
    && (n == |s| || o.delimiter <= s[n..]) && forall k | 0 <= k < n :: !(o.delimiter <= s[k..])
  }

  /** The first `n` bytes are a quoted field: blanks, the quote, what spells the text, the quote. */
  ghost predicate QuotedField(s: seq<byte>, n: nat, text: seq<byte>, b: nat, tokens: seq<Token>, o: Options) {
    && QuoteAt(s, b, o) && n <= |s| && n == b + |o.quote| + |Spelling(tokens, o)| + |o.quote|
    && ClosedText(s[b + |o.quote|..], tokens, s[n..], o)
    && text == Meaning(tokens, o) && |text| <= o.limit && (Escapes(tokens) ==> ValidUtf8(text))
  }

  ghost predicate IsField(s: seq<byte>, n: nat, cell: Cell, o: Options) {
    if cell.quoted then exists b: nat, tokens :: QuotedField(s, n, cell.text, b, tokens, o)
    else PlainField(s, n, cell.text, o)
  }

  /** The quoted field that starts here does not end. */
  ghost predicate IsOpenField(s: seq<byte>, o: Options) {
    exists b: nat, tokens :: QuoteAt(s, b, o) && OpenText(s[b + |o.quote|..], tokens, o)
                             && |Meaning(tokens, o)| <= o.limit
  }

  /** The field that starts here is refused. */
  ghost predicate IsBadField(s: seq<byte>, e: CsvError, o: Options) {
    if IsQuoted(s, o) then exists b: nat, tokens, rest :: BadQuotedField(s, b, tokens, rest, e, o)
    else e == FieldTooLong && TooFar(s, o)
  }

  /** A quoted field with a bad text, or one whose escapes leave no valid UTF-8. */
  predicate BadQuotedField(s: seq<byte>, b: nat, tokens: seq<Token>, rest: seq<byte>, e: CsvError, o: Options) {
    && QuoteAt(s, b, o)
    && var text := s[b + |o.quote|..];
       BadText(text, [], tokens, rest, e, o) || (e == BadUtf8 && BadBytes(text, tokens, rest, o))
  }

  predicate BadBytes(s: seq<byte>, tokens: seq<Token>, rest: seq<byte>, o: Options) {
    ClosedText(s, tokens, rest, o) && Escapes(tokens) && !ValidUtf8(Meaning(tokens, o))
  }

  /** No delimiter within the limit. */
  predicate TooFar(s: seq<byte>, o: Options) {
    |s| > o.limit && forall k | 0 <= k <= o.limit :: !(o.delimiter <= s[k..])
  }

  lemma BadFieldIsOne(s: seq<byte>, o: Options)
    ensures var r := FieldAt(s, o);
            r.Wrong? ==> IsBadField(s, r.error, o)
  {
    hide Quoted, Blanks, ValidUtf8, ClosedText, BadText, QuoteAt, Spelling, Meaning, Escapes;
    var b, r := Blanks(s, o), FieldAt(s, o);
    QuoteIsAtBlanks(s, b, o);
    if QuoteAt(s, b, o) {
      var text := s[b..][|o.quote|..];
      assert text == s[b + |o.quote|..];
      var tokens := ReadTokens(text, [], false, o);
      assert [] + Meaning(tokens, o) == Meaning(tokens, o);
      if Quoted(text, [], false, o).Bad? {
        var tokens', rest := RefusedText(text, [], false, o);
        assert BadQuotedField(s, b, tokens', rest, r.error, o);
      } else if r.Wrong? {
        assert BadQuotedField(s, b, tokens, Quoted(text, [], false, o).rest, r.error, o);
      }
    } else {
      forall k: nat ensures !QuoteAt(s, k, o) {
        QuoteIsAtBlanks(s, k, o);
      }
    }
  }

  lemma {:induction false} BlanksAre(s: seq<byte>, o: Options)
    ensures var b := Blanks(s, o);
            && (o.trim ==> (forall k | 0 <= k < b :: BlankAt(s, k, o)) && (b < |s| ==> !BlankAt(s, b, o)))
            && (!o.trim ==> b == 0)
  {
    if o.trim && s != [] && BlankAt(s, 0, o) {
      assert s[0..] == s;
      BlanksAre(s[1..], o);
      var b := Blanks(s[1..], o);
      forall k | 0 <= k < b + 1 ensures BlankAt(s, k, o) {
        if k > 0 {
          assert BlankAt(s[1..], k - 1, o) && s[1..][k - 1..] == s[k..];
        }
      }
      assert b < |s[1..]| ==> s[1..][b..] == s[b + 1..];
    } else if s != [] {
      assert s[0..] == s;
    }
  }

  lemma QuoteIsAtBlanks(s: seq<byte>, b: nat, o: Options)
    ensures QuoteAt(s, b, o) <==> b == Blanks(s, o) && o.quote <= s[b..]
  {
    hide Blanks, BlankAt;
    BlanksAre(s, o);
    if QuoteAt(s, b, o) && o.trim {
      var n := Blanks(s, o);
      assert b < |s| && n == b;
    }
  }

  /** The reader takes a field exactly when it is one. */
  lemma FieldIsOne(s: seq<byte>, o: Options) returns (n: nat)
    ensures var r := FieldAt(s, o);
            && (r.Got? ==> n <= |s| && r.rest == s[n..] && IsField(s, n, r.cell, o))
            && (r.NotClosed? ==> IsOpenField(s, o))
  {
    hide Quoted, Blanks, ValidUtf8, ClosedText, OpenText, QuoteAt, Spelling, Meaning, Escapes;
    var b, r := Blanks(s, o), FieldAt(s, o);
    QuoteIsAtBlanks(s, b, o);
    if QuoteAt(s, b, o) {
      var start := s[b..];
      assert start[|o.quote|..] == s[b + |o.quote|..];
      var tokens := ReadTokens(start[|o.quote|..], [], false, o);
      assert [] + Meaning(tokens, o) == Meaning(tokens, o);
      if r.Got? {
        n := |s| - |r.rest|;
        ClosedParts(s, b, tokens, r.rest, o);
        assert QuotedField(s, n, r.cell.text, b, tokens, o);
      } else {
        n := 0;
        assert r.NotClosed? ==> OpenText(s[b + |o.quote|..], tokens, o);
      }
    } else {
      n := ToDelimiter(s, o.delimiter);
      forall k: nat ensures !QuoteAt(s, k, o) {
        QuoteIsAtBlanks(s, k, o);
      }
    }
  }

  lemma ClosedParts(s: seq<byte>, b: nat, tokens: seq<Token>, rest: seq<byte>, o: Options)
    requires b + |o.quote| <= |s| && ClosedText(s[b + |o.quote|..], tokens, rest, o)
    ensures |s| - |rest| == b + |o.quote| + |Spelling(tokens, o)| + |o.quote| && s[|s| - |rest|..] == rest
  {
    hide Spelling, TokensFit;
    var body := s[b + |o.quote|..];
    assert body[|body| - |rest|..] == rest;
  }

  /** And gives what it says. */
  lemma FieldIsTaken(s: seq<byte>, n: nat, cell: Cell, o: Options)
    requires IsField(s, n, cell, o)
    ensures n <= |s| && FieldAt(s, o) == Got(cell, s[n..])
  {
    hide Quoted, Blanks, ClosedText, QuoteAt, Spelling, Meaning, Escapes, ToDelimiter;
    if cell.quoted {
      var b: nat, tokens :| QuotedField(s, n, cell.text, b, tokens, o);
      QuoteIsAtBlanks(s, b, o);
      assert s[b..][|o.quote|..] == s[b + |o.quote|..];
      ClosedIsRead(s[b + |o.quote|..], tokens, s[n..], o);
    } else {
      QuoteIsAtBlanks(s, Blanks(s, o), o);
      FirstDelimiter(s, n, o.delimiter);
    }
  }

  lemma {:induction false} FirstDelimiter(s: seq<byte>, n: nat, d: Mark)
    requires n <= |s| && (n == |s| || d <= s[n..]) && forall k | 0 <= k < n :: !(d <= s[k..])
    ensures ToDelimiter(s, d) == n
  {
    if n == 0 {
      assert s[0..] == s;
    } else {
      assert s[0..] == s;
      assert forall k | 0 <= k < n - 1 :: s[1..][k..] == s[k + 1..];
      assert s[1..][n - 1..] == s[n..];
      FirstDelimiter(s[1..], n - 1, d);
    }
  }

  lemma OpenFieldIsTaken(s: seq<byte>, o: Options)
    requires IsOpenField(s, o)
    ensures FieldAt(s, o) == NotClosed
  {
    hide Quoted, Blanks, OpenText, BlankAt, Spelling, Meaning;
    var b: nat, tokens :|
      QuoteAt(s, b, o) && OpenText(s[b + |o.quote|..], tokens, o) && |Meaning(tokens, o)| <= o.limit;
    QuoteIsAtBlanks(s, b, o);
    assert s[b..][|o.quote|..] == s[b + |o.quote|..];
    OpenIsRead(s[b + |o.quote|..], tokens, o);
  }

  // ---------------------------------------------------------------- records

  /** Fields with a delimiter between each two of them. */
  ghost predicate IsRecord(s: seq<byte>, cells: seq<Cell>, o: Options)
    decreases |cells|
  {
    && cells != []
    && if |cells| == 1 then IsField(s, |s|, cells[0], o)
       else exists n: nat :: FieldAndDelimiter(s, n, cells[0], o) && IsRecord(s[n + |o.delimiter|..], cells[1..], o)
  }

  ghost predicate FieldAndDelimiter(s: seq<byte>, n: nat, cell: Cell, o: Options) {
    n + |o.delimiter| <= |s| && o.delimiter <= s[n..] && IsField(s, n, cell, o)
  }

  /** Fields and delimiters, and then a quoted field that does not end. */
  ghost predicate IsOpenRecord(s: seq<byte>, cells: seq<Cell>, o: Options)
    decreases |cells|
  {
    if cells == [] then IsOpenField(s, o)
    else exists n: nat :: FieldAndDelimiter(s, n, cells[0], o) && IsOpenRecord(s[n + |o.delimiter|..], cells[1..], o)
  }

  /** Every record the reader gives is one, and every open record has a field that does not end. */
  lemma {:induction false} ParsedIsRecord(s: seq<byte>, o: Options) returns (before: seq<Cell>)
    ensures var r := ParseFields(s, o);
            && (r.Fine? && r.value.Some? ==> IsRecord(s, r.value.value, o))
            && (r == Fine(None) ==> IsOpenRecord(s, before, o))
    decreases |s|
  {
    hide FieldAt, IsField, IsOpenField;
    before := [];
    var n := FieldIsOne(s, o);
    var r := FieldAt(s, o);
    if r.Got? {
      if r.rest == [] {
        assert n == |s| && [r.cell][0] == r.cell;
      } else {
        var next := r.rest[|o.delimiter|..];
        assert s[n..] == r.rest && next == s[n + |o.delimiter|..];
        assert FieldAndDelimiter(s, n, r.cell, o);
        var others := ParsedIsRecord(next, o);
        before := [r.cell] + others;
        var more := ParseFields(next, o);
        if more.Fine? && more.value.Some? {
          FieldThenRecord(s, n, r.cell, more.value.value, o);
        } else if more == Fine(None) {
          FieldThenOpen(s, n, r.cell, others, o);
        }
      }
    }
  }

  lemma FieldThenRecord(s: seq<byte>, n: nat, cell: Cell, cells: seq<Cell>, o: Options)
    requires FieldAndDelimiter(s, n, cell, o) && IsRecord(s[n + |o.delimiter|..], cells, o)
    ensures IsRecord(s, [cell] + cells, o)
  {
    hide FieldAndDelimiter;
    assert ([cell] + cells)[1..] == cells && ([cell] + cells)[0] == cell;
  }

  lemma FieldThenOpen(s: seq<byte>, n: nat, cell: Cell, cells: seq<Cell>, o: Options)
    requires FieldAndDelimiter(s, n, cell, o) && IsOpenRecord(s[n + |o.delimiter|..], cells, o)
    ensures IsOpenRecord(s, [cell] + cells, o)
  {
    hide FieldAndDelimiter;
    assert ([cell] + cells)[1..] == cells && ([cell] + cells)[0] == cell;
  }

  lemma {:induction false} RecordIsParsed(s: seq<byte>, cells: seq<Cell>, o: Options)
    requires IsRecord(s, cells, o)
    ensures ParseFields(s, o) == Fine(Some(cells))
    decreases |cells|
  {
    hide FieldAt, IsField;
    if |cells| == 1 {
      FieldIsTaken(s, |s|, cells[0], o);
      assert cells == [cells[0]];
    } else {
      var n: nat :| FieldAndDelimiter(s, n, cells[0], o) && IsRecord(s[n + |o.delimiter|..], cells[1..], o);
      FieldIsTaken(s, n, cells[0], o);
      assert s[n..][|o.delimiter|..] == s[n + |o.delimiter|..];
      RecordIsParsed(s[n + |o.delimiter|..], cells[1..], o);
      assert [cells[0]] + cells[1..] == cells;
    }
  }

  lemma {:induction false} OpenRecordIsParsed(s: seq<byte>, cells: seq<Cell>, o: Options)
    requires IsOpenRecord(s, cells, o)
    ensures ParseFields(s, o) == Fine(None)
    decreases |cells|
  {
    hide FieldAt, IsField, IsOpenField;
    if cells == [] {
      OpenFieldIsTaken(s, o);
    } else {
      var n: nat :| FieldAndDelimiter(s, n, cells[0], o) && IsOpenRecord(s[n + |o.delimiter|..], cells[1..], o);
      FieldIsTaken(s, n, cells[0], o);
      assert s[n..][|o.delimiter|..] == s[n + |o.delimiter|..];
      OpenRecordIsParsed(s[n + |o.delimiter|..], cells[1..], o);
    }
  }

  /** Fields and delimiters, and then a field that is refused. */
  ghost predicate IsBadRecord(s: seq<byte>, cells: seq<Cell>, e: CsvError, o: Options)
    decreases |cells|
  {
    if cells == [] then IsBadField(s, e, o)
    else exists n: nat :: FieldAndDelimiter(s, n, cells[0], o) && IsBadRecord(s[n + |o.delimiter|..], cells[1..], e, o)
  }

  /** A record is refused for its first field that is. */
  lemma {:induction false} RefusedRecord(s: seq<byte>, o: Options) returns (before: seq<Cell>)
    ensures var r := ParseFields(s, o);
            r.Failed? ==> IsBadRecord(s, before, r.error, o)
    decreases |s|
  {
    hide FieldAt, IsField, IsBadField;
    before := [];
    var n := FieldIsOne(s, o);
    var r := FieldAt(s, o);
    BadFieldIsOne(s, o);
    if r.Got? && r.rest != [] {
      var next := r.rest[|o.delimiter|..];
      assert s[n..] == r.rest && next == s[n + |o.delimiter|..];
      assert FieldAndDelimiter(s, n, r.cell, o);
      var others := RefusedRecord(next, o);
      before := [r.cell] + others;
      if ParseFields(next, o).Failed? {
        FieldThenBad(s, n, r.cell, others, ParseFields(next, o).error, o);
      }
    }
  }

  lemma FieldThenBad(s: seq<byte>, n: nat, cell: Cell, cells: seq<Cell>, e: CsvError, o: Options)
    requires FieldAndDelimiter(s, n, cell, o) && IsBadRecord(s[n + |o.delimiter|..], cells, e, o)
    ensures IsBadRecord(s, [cell] + cells, e, o)
  {
    hide FieldAndDelimiter;
    assert ([cell] + cells)[1..] == cells && ([cell] + cells)[0] == cell;
  }

  /** For every choice of options: the reader gives these cells for the bytes of a record if and only if the
      grammar does, and asks for another line if and only if a quoted field does not end. */
  lemma RecordMeans(s: seq<byte>, cells: seq<Cell>, o: Options)
    ensures ParseFields(s, o) == Fine(Some(cells)) <==> IsRecord(s, cells, o)
    ensures ParseFields(s, o) == Fine(None) <==> exists before :: IsOpenRecord(s, before, o)
  {
    hide ParseFields, IsRecord, IsOpenRecord;
    var before := ParsedIsRecord(s, o);
    if IsRecord(s, cells, o) {
      RecordIsParsed(s, cells, o);
    }
    if some :| IsOpenRecord(s, some, o) {
      OpenRecordIsParsed(s, some, o);
    } else {
      assert !IsOpenRecord(s, before, o);
    }
  }

  // ---------------------------------------------------------------- field by field

  /** The fields stand one behind another, with a delimiter between each two of them. */
  ghost predicate FieldsStand(s: seq<byte>, cells: seq<Cell>, starts: seq<nat>, ends: seq<nat>, o: Options) {
    && |starts| == |ends| == |cells| > 0 && starts[0] == 0 && ends[|cells| - 1] == |s|
    && forall i | 0 <= i < |cells| :: FieldStands(s, cells, starts, ends, i, o)
  }

  ghost predicate FieldStands(s: seq<byte>, cells: seq<Cell>, starts: seq<nat>, ends: seq<nat>, i: nat, o: Options)
    requires i < |starts| == |ends| == |cells|
  {
    && FieldFrom(s, starts[i], ends[i], cells[i], o)
    && (i + 1 < |cells| ==> DelimiterFrom(s, ends[i], starts[i + 1], o))
  }

  ghost predicate FieldFrom(s: seq<byte>, start: nat, end: nat, cell: Cell, o: Options) {
    start <= end <= |s| && IsField(s[start..], end - start, cell, o)
  }

  predicate DelimiterFrom(s: seq<byte>, start: nat, end: nat, o: Options) {
    start <= end <= |s| && s[start..end] == o.delimiter
  }

  lemma FieldBehind(s: seq<byte>, d: nat, start: nat, end: nat, cell: Cell, o: Options)
    requires d <= |s|
    ensures FieldFrom(s[d..], start, end, cell, o) ==> FieldFrom(s, d + start, d + end, cell, o)
    ensures DelimiterFrom(s[d..], start, end, o) ==> DelimiterFrom(s, d + start, d + end, o)
  {
    hide IsField;
    if start <= |s[d..]| {
      assert s[d..][start..] == s[d + start..];
    }
    if start <= end <= |s[d..]| {
      assert s[d..][start..end] == s[d + start..d + end];
    }
  }

  function Moved(places: seq<nat>, d: nat): (r: seq<nat>)
    ensures |r| == |places| && forall i | 0 <= i < |r| :: r[i] == d + places[i]
  {
    seq(|places|, i requires 0 <= i < |places| => d + places[i])
  }

  lemma {:induction false} FieldsOf(s: seq<byte>, cells: seq<Cell>, o: Options)
      returns (starts: seq<nat>, ends: seq<nat>)
    requires IsRecord(s, cells, o)
    ensures FieldsStand(s, cells, starts, ends, o)
    decreases |cells|
  {
    hide IsField, FieldsStand;
    if |cells| == 1 {
      starts, ends := [0], [|s|];
      WholeField(s, cells, o);
    } else {
      var n: nat :| FieldAndDelimiter(s, n, cells[0], o) && IsRecord(s[n + |o.delimiter|..], cells[1..], o);
      var d := n + |o.delimiter|;
      var starts', ends' := FieldsOf(s[d..], cells[1..], o);
      starts, ends := [0] + Moved(starts', d), [n] + Moved(ends', d);
      OneMoreField(s, n, cells, starts', ends', o);
    }
  }

  lemma OneMoreField(s: seq<byte>, n: nat, cells: seq<Cell>, starts: seq<nat>, ends: seq<nat>, o: Options)
    requires |cells| > 1 && FieldAndDelimiter(s, n, cells[0], o) && n + |o.delimiter| <= |s|
    requires FieldsStand(s[n + |o.delimiter|..], cells[1..], starts, ends, o)
    ensures var d := n + |o.delimiter|;
            FieldsStand(s, cells, [0] + Moved(starts, d), [n] + Moved(ends, d), o)
  {
    hide FieldFrom, DelimiterFrom, FieldAndDelimiter;
    var d := n + |o.delimiter|;
    var starts', ends' := [0] + Moved(starts, d), [n] + Moved(ends, d);
    forall i | 0 <= i < |cells| ensures FieldStands(s, cells, starts', ends', i, o) {
      if i == 0 {
        FirstField(s, n, cells[0], o);
      } else {
        assert FieldStands(s[d..], cells[1..], starts, ends, i - 1, o);
        FieldBehind(s, d, starts[i - 1], ends[i - 1], cells[i], o);
        if i + 1 < |cells| {
          FieldBehind(s, d, ends[i - 1], starts[i], cells[i], o);
        }
      }
    }
  }

  lemma WholeField(s: seq<byte>, cells: seq<Cell>, o: Options)
    requires |cells| == 1 && IsField(s, |s|, cells[0], o)
    ensures FieldsStand(s, cells, [0], [|s|], o)
  {
    hide IsField;
    assert s[0..] == s;
  }

  lemma FirstField(s: seq<byte>, n: nat, cell: Cell, o: Options)
    requires FieldAndDelimiter(s, n, cell, o)
    ensures FieldFrom(s, 0, n, cell, o) && DelimiterFrom(s, n, n + |o.delimiter|, o)
  {
    hide IsField;
    assert s[0..] == s && s[n..][..|o.delimiter|] == s[n..n + |o.delimiter|];
  }

  /** Without trimming the first bytes of a field decide; with it, the first that are no blanks. */
  predicate StartsQuoted(s: seq<byte>, o: Options) {
    if o.trim then exists b: nat | b < |s| :: BlanksTo(s, b, o) && !BlankAt(s, b, o) && o.quote <= s[b..]
    else o.quote <= s
  }

  predicate BlanksTo(s: seq<byte>, b: nat, o: Options)
    requires b <= |s|
  {
    forall k | 0 <= k < b :: BlankAt(s, k, o)
  }

  /** The text of an unquoted field: all bytes up to the first delimiter, with the blanks and the quotes in it. */
  predicate TextToDelimiter(s: seq<byte>, text: seq<byte>, o: Options) {
    && text <= s && (text == s || o.delimiter <= s[|text|..])
    && forall k | 0 <= k < |text| :: !(o.delimiter <= s[k..])
  }

  /** Which fields are quoted, and what the others say. */
  lemma FieldSays(s: seq<byte>, n: nat, cell: Cell, o: Options)
    requires IsField(s, n, cell, o)
    ensures cell.quoted <==> StartsQuoted(s, o)
    ensures !cell.quoted ==> TextToDelimiter(s, cell.text, o)
  {
    hide ClosedText, Spelling, Meaning, Escapes, ValidUtf8, BlankAt;
    QuotedMeans(s, o);
    if cell.quoted {
      var b: nat, tokens :| QuotedField(s, n, cell.text, b, tokens, o);
      assert QuoteAt(s, b, o);
    }
  }

  lemma QuotedMeans(s: seq<byte>, o: Options)
    ensures IsQuoted(s, o) <==> StartsQuoted(s, o)
  {
    hide BlankAt;
    if IsQuoted(s, o) {
      var b: nat :| QuoteAt(s, b, o);
      if o.trim {
        assert b < |s| && BlanksTo(s, b, o) && !BlankAt(s, b, o);
      } else {
        assert s[0..] == s;
      }
    }
    if StartsQuoted(s, o) {
      if o.trim {
        var b: nat :| b < |s| && BlanksTo(s, b, o) && !BlankAt(s, b, o) && o.quote <= s[b..];
        assert QuoteAt(s, b, o);
      } else {
        assert s[0..] == s;
        assert QuoteAt(s, 0, o);
      }
    }
  }
}
