/**
 * The lexer as it runs: an iterator over the input that keeps line and column, a growing list of
 * tokens, and a number buffer of fixed size. Each method is proved against the function of the
 * remaining text it computes.
 */
module Tokenizer {
  import Native
  import opened Lexer

  datatype Outcome = Ok(token: Token) | Throw(error: LexError)

  /** What a method returns and leaves, against what the text calls for. */
  ghost predicate Yields(r: Outcome, rest: string, spec: Lexed) {
    match spec
    case Error(error) => r == Throw(error)
    case Lexed(token, left) => r == Ok(token) && rest == left
  }

  // ------------------------------------------------------------------ places

  datatype Place = Place(line: nat, col: nat)

  function After(p: Place, c: char): Place {
    if c == '\n' then Place(p.line + 1, 1) else if c == '\t' then Place(p.line, p.col + 4) else Place(p.line, p.col + 1)
  }

  /** Where the text before it puts the next character. */
  function PlaceAfter(s: string): Place {
    if s == [] then Place(1, 1) else After(PlaceAfter(s[..|s| - 1]), s[|s| - 1])
  }

  // ------------------------------------------------------------------ buffer

  lemma {:induction false} CutAgain(a: string, b: string)
    ensures Cut(Cut(a) + b) == Cut(a + b)
  {
    if |a| > BUFFER_LIMIT {
      assert Cut(a) + b == a[..BUFFER_LIMIT] + b;
      assert (a[..BUFFER_LIMIT] + b)[..BUFFER_LIMIT] == a[..BUFFER_LIMIT];
      assert (a + b)[..BUFFER_LIMIT] == a[..BUFFER_LIMIT];
    }
  }

  lemma {:induction false} DigitsConcat(a: string, b: string)
    ensures Digits(a + b) == Digits(a) + Digits(b)
    decreases |a|
  {
    if a == [] {
      assert a + b == b;
    } else {
      assert (a + b)[1..] == a[1..] + b;
      DigitsConcat(a[1..], b);
    }
  }

  /** What the buffer holds after a stretch of a text, if it began with some. */
  ghost function Fed(text: string, s: string, i: nat, j: nat): (r: string)
    requires i <= j <= |s|
    ensures |r| <= BUFFER_LIMIT
  {
    Cut(text + Digits(s[i..j]))
  }

  lemma {:induction false} FedMore(text: string, s: string, i: nat, j: nat, k: nat)
    requires i <= j <= k <= |s|
    ensures Fed(Fed(text, s, i, j), s, j, k) == Fed(text, s, i, k)
  {
    var a, b := s[i..j], s[j..k];
    assert s[i..k] == a + b;
    DigitsConcat(a, b);
    CutAgain(text + Digits(a), Digits(b));
    hide Digits, Cut;
    assert text + Digits(a) + Digits(b) == text + (Digits(a) + Digits(b));
  }

  lemma {:induction false} FedIs(s: string, i: nat, j: nat)
    requires i <= j <= |s|
    ensures Fed([], s, i, j) == Cut(Digits(s[i..j]))
  {
    hide Digits, Cut;
    assert [] + Digits(s[i..j]) == Digits(s[i..j]);
  }

  lemma {:induction false} FedFrom(s: string, i: nat, j: nat)
    requires 2 <= i <= j <= |s|
    ensures var r := Fed(s[i - 2..i], s, i, j);
            r == Cut(s[i - 2..i] + Digits(s[i..j])) && |r| >= 2
  {
    hide Digits;
  }

  lemma {:induction false} FedNone(text: string, s: string, i: nat)
    requires |text| <= BUFFER_LIMIT && i <= |s|
    ensures Fed(text, s, i, i) == text
  {
    assert s[i..i] == [];
    assert text + [] == text;
  }

  /** What one more character does to the buffer. */
  lemma {:induction false} FedStep(text: string, s: string, i: nat, j: nat)
    requires i <= j < |s|
    ensures var before := Fed(text, s, i, j);
            Fed(text, s, i, j + 1) == if s[j] == '_' then before else Cut(before + [s[j]])
  {
    FedMore(text, s, i, j, j + 1);
    FedOne(Fed(text, s, i, j), s, j);
    hide Fed;
  }

  lemma {:induction false} FedOne(text: string, s: string, j: nat)
    requires |text| <= BUFFER_LIMIT && j < |s|
    ensures Fed(text, s, j, j + 1) == if s[j] == '_' then text else Cut(text + [s[j]])
  {
    assert s[j..j + 1] == [s[j]];
    assert Digits([s[j]]) == if s[j] == '_' then [] else [s[j]];
    assert text + [] == text;
  }

  /** The number buffer keeps a character if there is room. */
  function Put(buffer: string, c: char): (r: string)
    requires |buffer| <= BUFFER_LIMIT
    ensures r == Cut(buffer + [c])
  {
    if |buffer| < BUFFER_LIMIT then buffer + [c] else assert (buffer + [c])[..BUFFER_LIMIT] == buffer; buffer
  }

  // ------------------------------------------------------------------- lexer

  class Iterator {
    const input: string
    var pos: nat
    var line: nat
    var col: nat

    ghost predicate Valid()
      reads this
    {
      pos <= |input| && Place(line, col) == PlaceAfter(input[..pos])
    }

    ghost function Rest(): string
      requires Valid()
      reads this
    {
      input[pos..]
    }

    constructor (text: string)
      ensures Valid() && input == text && Rest() == text
    {
      input := text;
      pos, line, col := 0, 1, 1;
    }

    function Current(): (c: char)
      requires Valid()
      reads this
      ensures c == Peek(Rest(), 0)
    {
      if pos < |input| then input[pos] else NUL
    }

    function Ahead(k: nat): (c: char)
      requires Valid()
      reads this
      ensures c == Peek(Rest(), k)
    {
      if pos + k < |input| then input[pos + k] else NUL
    }

    method Next()
      requires Valid()
      modifies this
      ensures Valid() && Rest() == if old(Rest()) == [] then [] else old(Rest())[1..]
    {
      if pos < |input| {
        if input[pos] == '\n' {
          line, col := line + 1, 1;
        } else if input[pos] == '\t' {
          col := col + 4;
        } else {
          col := col + 1;
        }
        assert input[..pos + 1][..pos] == input[..pos];
        pos := pos + 1;
      }
    }

    // ------------------------------------------------------- blanks, comments

    method EatLine()
      requires Valid()
      modifies this
      ensures Valid() && Rest() == SkipLine(old(Rest()))
    {
      while true
        invariant Valid() && SkipLine(Rest()) == SkipLine(old(Rest()))
        decreases |input| - pos
      {
        if Current() == '\n' || Current() == NUL { break; }
        Next();
      }
    }

    method EatWhitespaceAndComments()
      requires Valid()
      modifies this
      ensures Valid() && Rest() == SkipBlanks(old(Rest()))
    {
      while true
        invariant Valid() && SkipBlanks(Rest()) == SkipBlanks(old(Rest()))
        decreases |Rest()|
      {
        var c := Current();
        if pos < |input| && IsBlank(c) {
          Next();
        } else if c == '#' && Ahead(1) == ' ' {
          Next();
          EatLine();
        } else {
          break;
        }
      }
    }

    // ------------------------------------------------------------------ words

    method EatIdent() returns (text: string)
      requires Valid()
      modifies this
      ensures Valid()
      ensures var s := old(Rest()); text == s[..IdentLength(s)] && Rest() == s[IdentLength(s)..]
    {
      var start := pos;
      ghost var s := Rest();
      while IsIdent(Current())
        invariant Valid() && start <= pos && s == input[start..]
        invariant IdentLength(s) == pos - start + IdentLength(Rest())
        decreases |input| - pos
      {
        Next();
      }
      assert IdentLength(Rest()) == 0;
      text := input[start..pos];
      assert s[..pos - start] == text && s[pos - start..] == Rest();
    }

    method LexIdentifierOrKeyword() returns (r: Outcome)
      requires Valid()
      modifies this
      ensures Valid() && Yields(r, Rest(), LexWord(old(Rest())))
    {
      var text := EatIdent();
      r := Ok(Word(text));
    }

    /** Called on the first dash. */
    method LexFlag() returns (r: Outcome)
      requires Valid() && Rest() != [] && Rest()[0] == '-'
      modifies this
      ensures Valid() && Yields(r, Rest(), LexDash(old(Rest())))
    {
      ghost var s := Rest();
      Next();
      assert Current() == Peek(s, 1);
      if Current() == '-' {
        Next();
        assert Rest() == s[2..];
        assert Current() == Peek(s, 2);
        if IsIdent(Current()) {
          var name := EatIdent();
          r := Ok(FlagLong(name));
        } else {
          r := Ok(DoubleMinus);
        }
      } else if IsIdent(Current()) {
        var name := EatIdent();
        r := Ok(FlagShort(name));
      } else {
        r := Ok(Minus);
      }
    }

    // ---------------------------------------------------------------- strings

    /** Looks for the closing quote. */
    method EatQuoted() returns (r: Scan)
      requires Valid()
      modifies this
      ensures Valid() && r == ScanString(old(Rest()))
      ensures r.Closed? ==> pos == old(pos) + r.length
    {
      hide PlaceAfter;
      var start := pos;
      ghost var s := Rest();
      while Current() != '"'
        invariant Valid() && start <= pos
        invariant ScanString(s) == Farther(ScanString(Rest()), pos - start)
        decreases |input| - pos
      {
        ghost var t := Rest();
        if Current() == NUL || Current() == '\n' { return Bad(UnclosedString); }
        if Current() == '\\' {
          Next();
          assert Current() == Peek(t, 1);
          if Current() == NUL || Current() == '\n' { return Bad(UnclosedString); }
          if !IsEscape(Current()) { return Bad(UnknownEscape); }
          assert t[2..] == Rest()[1..];
        }
        Next();
      }
      r := Closed(pos - start);
    }

    /** Called on the opening quote. */
    method LexQuoted() returns (r: Outcome)
      requires Valid() && Rest() != []
      modifies this
      ensures Valid() && Yields(r, Rest(), LexString(old(Rest())))
    {
      hide PlaceAfter, ScanString;
      Next();
      var start := pos;
      ghost var s := Rest();
      var end := EatQuoted();
      if end.Bad? { return Throw(end.error); }
      var close := pos;
      Next();
      assert s[..end.length] == input[start..close] && s[end.length + 1..] == Rest();
      r := Ok(StrLit(input[start..close]));
    }

    // ---------------------------------------------------------------- numbers

    /** Copies digits to the buffer, leaving out underscores. */
    method EatDigits(base: Radix, text: string) returns (buffer: string)
      requires Valid() && |text| <= BUFFER_LIMIT
      modifies this
      ensures Valid() && pos == old(pos) + DigitLength(base, input[old(pos)..])
      ensures buffer == Fed(text, input, old(pos), pos)
    {
      hide PlaceAfter, Fed, Cut, DigitLength;
      buffer := text;
      var start := pos;
      FedNone(text, input, start);
      while Current() == '_' || base.IsDigit(Current())
        invariant Valid() && start <= pos
        invariant DigitLength(base, input[start..]) == pos - start + DigitLength(base, input[pos..])
        invariant buffer == Fed(text, input, start, pos)
        decreases |input| - pos
      {
        FedStep(text, input, start, pos);
        DigitStep(base, input, pos);
        if Current() != '_' { buffer := Put(buffer, Current()); }
        Next();
      }
      DigitStep(base, input, pos);
    }

    /** The point and the digits after it, if there are any. */
    method EatFraction(text: string) returns (buffer: string, found: bool)
      requires Valid() && |text| <= BUFFER_LIMIT
      modifies this
      ensures Valid() && pos == old(pos) + FractionLength(input[old(pos)..])
      ensures found == (pos > old(pos)) && buffer == Fed(text, input, old(pos), pos)
    {
      hide PlaceAfter, Fed, Cut, DigitLength;
      var start := pos;
      FedNone(text, input, start);
      buffer, found := text, Current() == '.' && IsDec(Ahead(1));
      if found {
        buffer := EatOne(buffer);
        buffer := EatDigits(Dec, buffer);
        FedMore(text, input, start, start + 1, pos);
      }
    }

    /** One character that is not an underscore. */
    method EatOne(text: string) returns (buffer: string)
      requires Valid() && |text| <= BUFFER_LIMIT && pos < |input| && input[pos] != '_'
      modifies this
      ensures Valid() && pos == old(pos) + 1 && buffer == Fed(text, input, old(pos), pos)
    {
      hide PlaceAfter, Fed, Cut;
      FedOne(text, input, pos);
      buffer := Put(text, Current());
      Next();
    }

    /** How many marks stand before the digits of an exponent, none if its first digit is not in sight. */
    method ExponentMarks() returns (marks: nat)
      requires Valid()
      ensures if marks == 0 then ExponentLength(input[pos..]) == 0
              else marks <= 2 && pos + marks <= |input|
                   && ExponentLength(input[pos..]) == marks + DigitLength(Dec, input[pos + marks..])
                   && input[pos] != '_' && (marks == 2 ==> input[pos + 1] != '_')
    {
      hide PlaceAfter, DigitLength, ExponentLength;
      ExponentAt(input, pos);
      if Current() != 'e' && Current() != 'E' { return 0; }
      if IsDec(Ahead(1)) { return 1; }
      if (Ahead(1) == '+' || Ahead(1) == '-') && IsDec(Ahead(2)) { return 2; }
      return 0;
    }

    /** The exponent, if there is one. */
    method EatExponent(text: string) returns (buffer: string, found: bool)
      requires Valid() && |text| <= BUFFER_LIMIT
      modifies this
      ensures Valid() && pos == old(pos) + ExponentLength(input[old(pos)..])
      ensures found == (pos > old(pos)) && buffer == Fed(text, input, old(pos), pos)
    {
      hide PlaceAfter, Fed, Cut, DigitLength, ExponentLength;
      var start := pos;
      FedNone(text, input, start);
      var marks := ExponentMarks();
      buffer, found := text, marks > 0;
      if found {
        buffer := EatOne(buffer);
        if marks == 2 {
          buffer := EatOne(buffer);
          FedMore(text, input, start, start + 1, pos);
        }
        ghost var digits := pos;
        buffer := EatDigits(Dec, buffer);
        FedMore(text, input, start, digits, pos);
      }
    }

    /** From after the prefix on. */
    method FinishBased(base: Radix, prefix: string) returns (r: Outcome)
      requires Valid() && pos >= 2 && prefix == input[pos - 2..pos]
      modifies this
      ensures Valid() && Yields(r, Rest(), LexBased(base, input[old(pos) - 2..]))
    {
      hide PlaceAfter, Fed, Cut, DigitLength, LexBased, Value;
      BasedParts(base, input, pos, pos + DigitLength(base, input[pos..]));
      if !base.IsDigit(Current()) { return Throw(IncompleteInt); }
      var buffer := EatDigits(base, prefix);
      if Current() == '.' || Current() == 'e' || Current() == 'E' { return Throw(InvalidChar); }
      assert |buffer| == 2 ==> buffer[2..] == [];
      r := if |buffer| <= 2 then Throw(IncompleteInt) else ToInt(base, buffer[2..]);
    }

    /** From the start, or from after a first 0. */
    method FinishDecimal(text: string) returns (r: Outcome)
      requires Valid() && |text| <= pos && text == input[pos - |text|..pos] && (text == [] || text == ['0'])
      modifies this
      ensures Valid() && Yields(r, Rest(), LexDecimal(input[old(pos) - |text|..]))
    {
      hide PlaceAfter, Fed, Cut, DigitLength, FractionLength, ExponentLength, LexDecimal, Value;
      ghost var start := pos - |text|;
      FedLead(text, input, start);
      FedMore([], input, start, pos, pos + DigitLength(Dec, input[pos..]));
      var buffer := EatDigits(Dec, text);
      ghost var point := pos;
      var fraction, exponent;
      buffer, fraction := EatFraction(buffer);
      ghost var mark := pos;
      buffer, exponent := EatExponent(buffer);
      FedMore([], input, start, point, mark);
      FedMore([], input, start, mark, pos);
      DecimalParts(input, start, point, mark, pos);
      r := if fraction || exponent then Ok(FloatLit(buffer, exponent)) else ToInt(Dec, buffer);
    }

    method LexNumeric() returns (r: Outcome)
      requires Valid() && Rest() != [] && IsDec(Rest()[0])
      modifies this
      ensures Valid() && Yields(r, Rest(), LexNumber(old(Rest())))
    {
      hide PlaceAfter, LexDecimal, LexBased, Value;
      ghost var s := Rest();
      var buffer := "";
      if Current() == '0' {
        buffer := Put(buffer, '0');
        Next();
        var p := Current();
        assert p == Peek(s, 1);
        if p == 'x' || p == 'X' || p == 'b' || p == 'B' {
          buffer := Put(buffer, p);
          Next();
          r := FinishBased(if p == 'x' || p == 'X' then Hex else Bin, buffer);
          return;
        }
        if !IsDec(p) && p != '.' && p != 'e' && p != 'E' { return Ok(IntLit(0, Dec)); }
      }
      r := FinishDecimal(buffer);
    }

    // ----------------------------------------------------------------- driver

    method NextToken() returns (r: Outcome)
      requires Valid()
      modifies this
      ensures Valid() && Yields(r, Rest(), Lexer.NextToken(old(Rest())))
    {
      hide PlaceAfter, LexNumber, LexDash, LexString, LexWord;
      var c := Current();
      if c == NUL {
        r := Ok(Eof);
      } else if c == '*' {
        Next();
        r := Ok(Times);
      } else if c == '-' {
        r := LexFlag();
      } else if c == '"' {
        r := LexQuoted();
      } else if IsDec(c) {
        r := LexNumeric();
      } else if IsIdent(c) {
        r := LexIdentifierOrKeyword();
      } else {
        r := Throw(InvalidChar);
      }
    }

    /** All tokens of the text, the end token last. */
    method LexAll() returns (tokens: seq<Token>, failure: Native.Option<LexError>)
      requires Valid()
      modifies this
      ensures match Lexer.LexAll(old(Rest()))
              case Failed(error) => failure == Native.Some(error)
              case Tokens(ts) => failure == Native.None && tokens == ts + [Eof]
    {
      tokens, failure := [], Native.None;
      ghost var s := Rest();
      while true
        invariant Valid()
        invariant Lexer.LexAll(s) == Prepend(tokens, Lexer.LexAll(Rest()))
        decreases |Rest()|
      {
        ghost var t := SkipBlanks(Rest());
        TokensConsume(t);
        hide SkipBlanks, Lexer.NextToken, PlaceAfter;
        EatWhitespaceAndComments();
        var token := NextToken();
        if token.Throw? { return tokens, Native.Some(token.error); }
        PrependMore(tokens, token.token, Lexer.LexAll(Rest()));
        tokens := tokens + [token.token];
        if token.token == Eof { break; }
      }
    }
  }

  function ToInt(base: Radix, ds: string): Outcome {
    if ds == [] then Throw(IncompleteInt)
    else if Value(base.Base(), ds) > MAX_INT then Throw(IntOutOfRange)
    else Ok(IntLit(Value(base.Base(), ds), base))
  }

  function Prepend(ts: seq<Token>, more: Tokens): Tokens {
    match more case Failed(_) => more case Tokens(us) => Tokens(ts + us)
  }

  lemma {:induction false} PrependMore(ts: seq<Token>, t: Token, more: Tokens)
    ensures Prepend(ts, Cons(t, more)) == Prepend(ts + [t], more)
  {
    if more.Tokens? { assert ts + ([t] + more.tokens) == ts + [t] + more.tokens; }
  }

  lemma {:induction false} DigitStep(base: Radix, s: string, i: nat)
    requires i <= |s|
    ensures DigitLength(base, s[i..]) ==
            if i < |s| && (s[i] == '_' || base.IsDigit(s[i])) then 1 + DigitLength(base, s[i + 1..]) else 0
  {
    if i < |s| { assert s[i..][1..] == s[i + 1..]; }
  }

  lemma {:induction false} ExponentAt(s: string, i: nat)
    requires i <= |s|
    ensures var t := s[i..];
            ExponentLength(t) ==
            if Peek(t, 0) != 'e' && Peek(t, 0) != 'E' then 0
            else if IsDec(Peek(t, 1)) then 1 + DigitLength(Dec, s[i + 1..])
            else if (Peek(t, 1) == '+' || Peek(t, 1) == '-') && IsDec(Peek(t, 2)) then 2 + DigitLength(Dec, s[i + 2..])
            else 0
  {
    hide DigitLength;
    if i + 2 <= |s| { Slices(s, i, 2); }
    if i + 1 <= |s| { Slices(s, i, 1); }
  }

  lemma {:induction false} Slices(s: string, n: nat, f: nat)
    requires n + f <= |s|
    ensures s[n..][f..] == s[n + f..] && s[n..][..f] == s[n..n + f]
  {
  }

  /** A first 0 is one of the digits. */
  lemma {:induction false} FedLead(text: string, s: string, start: nat)
    requires start + |text| <= |s| && text == s[start..start + |text|] && (text == [] || text == ['0'])
    ensures Fed([], s, start, start + |text|) == text
    ensures DigitLength(Dec, s[start..]) == |text| + DigitLength(Dec, s[start + |text|..])
  {
    FedNone([], s, start);
    if text != [] {
      FedStep([], s, start, start);
      assert s[start..][1..] == s[start + 1..];
    }
  }

  lemma {:induction false} BasedParts(base: Radix, s: string, start: nat, end: nat)
    requires 2 <= start <= end <= |s| && end == start + DigitLength(base, s[start..])
    ensures var buffer := Fed(s[start - 2..start], s, start, end);
            |buffer| >= 2 && LexBased(base, s[start - 2..]) ==
            if !base.IsDigit(Peek(s[start..], 0)) then Error(IncompleteInt)
            else if Peek(s[end..], 0) == '.' || Peek(s[end..], 0) == 'e' || Peek(s[end..], 0) == 'E'
            then Error(InvalidChar)
            else IntToken(base, buffer[2..], s[end..])
  {
    hide *;
    BasedIs(base, s[start - 2..]);
    FedFrom(s, start, end);
    Slices(s, start - 2, 2);
    Slices(s, start, end - start);
  }

  lemma {:induction false} DecimalIs(s: string)
    ensures var n := DigitLength(Dec, s);
            var f := FractionLength(s[n..]);
            var e := ExponentLength(s[n + f..]);
            var text := Cut(Digits(s[..n + f + e]));
            LexDecimal(s) == if f + e > 0 then Lexed(FloatLit(text, e > 0), s[n + f + e..])
              else IntToken(Dec, text, s[n..])
  {
    hide DigitLength, FractionLength, ExponentLength, Digits, IntToken, Cut;
  }

  lemma {:induction false} BasedIs(base: Radix, s: string)
    requires |s| >= 2
    ensures var body := s[2..];
            var n := DigitLength(base, body);
            LexBased(base, s) ==
            if !base.IsDigit(Peek(body, 0)) then Error(IncompleteInt)
            else if Peek(body[n..], 0) == '.' || Peek(body[n..], 0) == 'e' || Peek(body[n..], 0) == 'E'
            then Error(InvalidChar)
            else IntToken(base, Cut(s[..2] + Digits(body[..n]))[2..], body[n..])
  {
    hide DigitLength, Digits, IntToken;
  }

  /** The three parts of a decimal number, each read from where the last one ended. */
  lemma {:induction false} DecimalParts(s: string, start: nat, point: nat, mark: nat, end: nat)
    requires start <= point <= mark <= end <= |s|
    requires point == start + DigitLength(Dec, s[start..])
    requires mark == point + FractionLength(s[point..])
    requires end == mark + ExponentLength(s[mark..])
    ensures var buffer := Fed([], s, start, end);
            LexDecimal(s[start..]) ==
            if end > point then Lexed(FloatLit(buffer, end > mark), s[end..]) else IntToken(Dec, buffer, s[end..])
  {
    hide *;
    DecimalIs(s[start..]);
    FedIs(s, start, end);
    Slices(s, start, point - start);
    Slices(s, start, mark - start);
    Slices(s, start, end - start);
  }

  // ---------------------------------------------------------------- printing

  lemma {:induction false} Halve(v: nat, a: nat)
    requires a > 0
    ensures v / (2 * a) == v / a / 2
  {
    var q, r := v / a, v % a;
    var h, b := q / 2, q % 2;
    var r2 := b * a + r;
    assert b * a <= a;
    Distribute(h, b, a);
    QuotientIs(v, 2 * a, h, r2);
  }

  lemma {:induction false} Distribute(h: nat, b: nat, a: nat)
    ensures (2 * h + b) * a == h * (2 * a) + b * a
  {
  }

  lemma {:induction false} Pow2Positive(k: nat)
    ensures Pow2(k) > 0
  {
    if k > 0 { Pow2Positive(k - 1); }
  }

  /** What the loop has written once it is at a bit. */
  ghost function HighBits(w: nat): string {
    if w == 0 then [] else Numeral(2, w)
  }

  lemma {:induction false} NextBit(w: nat)
    ensures HighBits(w) == if w % 2 == 1 || w > 1 then HighBits(w / 2) + [DigitChar(w % 2)] else []
  {
    if w == 1 { assert [] + [DigitChar(1)] == [DigitChar(1)]; }
  }

  /** The bits from the highest down, without leading zeros. */
  method PrintBinary(v: nat) returns (text: string)
    requires v <= MAX_INT
    ensures text == Numeral(2, v)
  {
    hide Pow2, Numeral, HighBits;
    BitBounds(v);
    if v == 0 {
      ZeroNumeral();
      return "0";
    }
    text := "";
    var leading := true;
    var i := 64;
    while i > 0
      invariant 0 <= i <= 64 && Pow2(i) > 0
      invariant leading == (v / Pow2(i) == 0) && text == HighBits(v / Pow2(i))
    {
      i := i - 1;
      Pow2Positive(i);
      Doubles(i);
      Halve(v, Pow2(i));
      NextBit(v / Pow2(i));
      if v / Pow2(i) % 2 == 1 {
        leading := false;
        text := text + "1";
      } else if !leading {
        text := text + "0";
      }
    }
  }

  lemma {:induction false} ZeroNumeral()
    ensures Numeral(2, 0) == "0"
  {
  }

  lemma {:induction false} Doubles(i: nat)
    ensures Pow2(i + 1) == 2 * Pow2(i)
  {
  }

  lemma {:induction false} BitBounds(v: nat)
    requires v <= MAX_INT
    ensures Pow2(64) > v && v / Pow2(64) == 0 && HighBits(0) == [] && Pow2(0) == 1 && v / 1 == v
    ensures v > 0 ==> HighBits(v) == Numeral(2, v)
  {
    hide Numeral;
    LargestInt();
    Doubles(63);
    QuotientIs(v, Pow2(64), 0, v);
  }

  lemma {:induction false} RawStep(raw: string, i: nat)
    requires i < |raw|
    ensures var two := raw[i] == '\\' && i + 1 < |raw|;
            PrintRaw(raw[i..]) == if two then ['\\', raw[i + 1]] + PrintRaw(raw[i + 2..])
              else Show(raw[i]) + PrintRaw(raw[i + 1..])
    ensures var two := raw[i] == '\\' && i + 1 < |raw|;
            StrValue(raw[i..]) == if two then [Unescaped(raw[i + 1])] + StrValue(raw[i + 2..])
              else [raw[i]] + StrValue(raw[i + 1..])
  {
    hide Show, Unescaped;
    assert raw[i..][1..] == raw[i + 1..];
    if i + 1 < |raw| { assert raw[i..][2..] == raw[i + 2..]; }
  }

  lemma {:induction false} RawEnd(raw: string)
    ensures PrintRaw(raw[|raw|..]) == [] && StrValue(raw[|raw|..]) == [] && raw[0..] == raw
  {
  }

  /** A string literal, shown between quotes. */
  method PrintStringLiteral(raw: string) returns (text: string)
    ensures text == Print(StrLit(raw))
  {
    hide PrintRaw, Show;
    RawEnd(raw);
    var shown := "";
    var i := 0;
    while i < |raw|
      invariant 0 <= i <= |raw| && PrintRaw(raw) == shown + PrintRaw(raw[i..])
    {
      RawStep(raw, i);
      var c := raw[i];
      i := i + 1;
      if c == '\\' && i < |raw| {
        shown := shown + ['\\', raw[i]];
        i := i + 1;
      } else {
        shown := shown + Show(c);
      }
    }
    text := ['"'] + shown + ['"'];
  }

  /** The string a literal stands for. */
  method StringLiteralValue(raw: string) returns (value: string)
    ensures value == StrValue(raw)
  {
    hide StrValue, Unescaped;
    RawEnd(raw);
    value := "";
    var i := 0;
    while i < |raw|
      invariant 0 <= i <= |raw| && StrValue(raw) == value + StrValue(raw[i..])
    {
      RawStep(raw, i);
      if raw[i] == '\\' {
        i := i + 1;
        if i >= |raw| {
          value := value + ['\\'];
          break;
        }
        value := value + [Unescaped(raw[i])];
      } else {
        value := value + [raw[i]];
      }
      i := i + 1;
    }
  }

  // ------------------------------------------------------------------- places

  function Tabs(s: string): nat {
    if s == [] then 0 else Tabs(s[..|s| - 1]) + if s[|s| - 1] == '\t' then 1 else 0
  }

  /** A line break begins a new line; on it every character counts one column and a tab four. */
  lemma {:induction false} PlacesCount(before: string, line: string)
    requires '\n' !in line
    ensures PlaceAfter(line) == Place(1, 1 + |line| + 3 * Tabs(line))
    ensures PlaceAfter(before + ['\n'] + line) == Place(PlaceAfter(before).line + 1, 1 + |line| + 3 * Tabs(line))
    decreases |line|
  {
    if line == [] {
      assert before + ['\n'] + line == before + ['\n'] && (before + ['\n'])[..|before|] == before;
    } else {
      var n := |line| - 1;
      var all := before + ['\n'] + line;
      assert all[..|all| - 1] == before + ['\n'] + line[..n] && all[|all| - 1] == line[n];
      assert line[n] in line;
      PlacesCount(before, line[..n]);
    }
  }
}
