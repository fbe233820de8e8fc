/**
 * Tokens of the command line language: what the lexer makes of text, what the printer makes of
 * tokens, and when the one undoes the other. Texts are read from the front, a suffix at a time.
 */
module Lexer {

  // --------------------------------------------------------------- characters

  const NUL := '\0'

  predicate IsCntrl(c: char) { c < ' ' || c == '\U{7F}' }
  predicate IsPrint(c: char) { ' ' <= c <= '~' }
  predicate IsDec(c: char) { '0' <= c <= '9' }
  predicate IsHex(c: char) { IsDec(c) || 'a' <= c <= 'f' || 'A' <= c <= 'F' }
  predicate IsBin(c: char) { c == '0' || c == '1' }
  predicate IsIdent(c: char) { c != ' ' && !IsCntrl(c) }
  predicate IsBlank(c: char) { c == ' ' || c == '\t' || c == '\n' || c == '\r' }

  /** The character at a distance, or the terminator past the end. */
  function Peek(s: string, k: nat): char {
    if k < |s| then s[k] else NUL
  }

  datatype Radix = Dec | Bin | Hex {
    function Base(): nat {
      match this case Dec => 10 case Bin => 2 case Hex => 16
    }

    predicate IsDigit(c: char) {
      match this case Dec => IsDec(c) case Bin => IsBin(c) case Hex => IsHex(c)
    }
  }

  // ------------------------------------------------------------------- tokens

  /** A float keeps its text: its value is not modelled. A string keeps what stands between its quotes. */
  datatype Token =
    | Eof | True | False | Minus | DoubleMinus | Times
    | Id(name: string)
    | IntLit(value: nat, base: Radix)
    | FloatLit(text: string, hasExponent: bool)
    | StrLit(raw: string)
    | FlagShort(name: string)
    | FlagLong(name: string)

  datatype LexError = InvalidChar | UnclosedString | UnknownEscape | IntOutOfRange | IncompleteInt

  datatype Lexed = Lexed(token: Token, rest: string) | Error(error: LexError)

  const MAX_INT := 0x7FFF_FFFF_FFFF_FFFF
  const BUFFER_LIMIT := 127

  // ---------------------------------------------------------- blanks, comments

  /** The rest of the line from a comment on. */
  function SkipLine(s: string): (r: string)
    ensures |r| <= |s|
  {
    if Peek(s, 0) == '\n' || Peek(s, 0) == NUL then s else SkipLine(s[1..])
  }

  function SkipBlanks(s: string): (r: string)
    ensures |r| <= |s|
    decreases |s|
  {
    if s != [] && IsBlank(s[0]) then SkipBlanks(s[1..])
    else if Peek(s, 0) == '#' && Peek(s, 1) == ' ' then SkipBlanks(SkipLine(s[1..]))
    else s
  }

  // -------------------------------------------------------------- identifiers

  /** How far identifier characters go. */
  function IdentLength(s: string): (n: nat)
    ensures n <= |s| && forall k :: 0 <= k < n ==> IsIdent(s[k])
    ensures n < |s| ==> !IsIdent(s[n])
  {
    if s == [] || !IsIdent(s[0]) then 0 else 1 + IdentLength(s[1..])
  }

  function Word(name: string): Token {
    if name == "true" then True else if name == "false" then False else Id(name)
  }

  // ------------------------------------------------------------------ strings

  predicate IsEscape(c: char) {
    c == 'n' || c == 'r' || c == 't' || c == '\\' || c == '"' || c == '0'
  }

  datatype Scan = Closed(length: nat) | Bad(error: LexError)

  /** Looks for the closing quote. */
  function ScanString(s: string): (r: Scan)
    ensures r.Closed? ==> r.length < |s| && s[r.length] == '"'
  {
    var c := Peek(s, 0);
    if c == NUL || c == '\n' then Bad(UnclosedString)
    else if c == '"' then Closed(0)
    else if c == '\\' then
      var e := Peek(s, 1);
      if e == NUL || e == '\n' then Bad(UnclosedString)
      else if !IsEscape(e) then Bad(UnknownEscape)
      else Farther(ScanString(s[2..]), 2)
    else Farther(ScanString(s[1..]), 1)
  }

  function Farther(r: Scan, n: nat): Scan {
    if r.Closed? then Closed(r.length + n) else r
  }

  // ------------------------------------------------------------------ numbers

  /** How far digits and underscores go. */
  function DigitLength(base: Radix, s: string): (n: nat)
    ensures n <= |s| && (n < |s| ==> s[n] != '_' && !base.IsDigit(s[n]))
  {
    if s != [] && (s[0] == '_' || base.IsDigit(s[0])) then 1 + DigitLength(base, s[1..]) else 0
  }

  /** The digits without their underscores. */
  function Digits(s: string): string {
    if s == [] then [] else (if s[0] == '_' then [] else [s[0]]) + Digits(s[1..])
  }

  function DigitValue(c: char): nat {
    if IsDec(c) then c as int - '0' as int
    else if 'a' <= c <= 'f' then c as int - 'a' as int + 10
    else if 'A' <= c <= 'F' then c as int - 'A' as int + 10
    else 0
  }

  /** `strtoll` without its overflow. */
  function Value(base: nat, ds: string): nat {
    if ds == [] then 0 else Value(base, ds[..|ds| - 1]) * base + DigitValue(ds[|ds| - 1])
  }

  /** The fixed buffer silently drops what does not fit. */
  function Cut(text: string): string {
    if |text| > BUFFER_LIMIT then text[..BUFFER_LIMIT] else text
  }

  function IntToken(base: Radix, ds: string, rest: string): Lexed {
    if ds == [] then Error(IncompleteInt)
    else if Value(base.Base(), ds) > MAX_INT then Error(IntOutOfRange)
    else Lexed(IntLit(Value(base.Base(), ds), base), rest)
  }

  /** Based integers: the prefix takes two places of the buffer. */
  function LexBased(base: Radix, s: string): Lexed
    requires |s| >= 2
  {
    var body := s[2..];
    if !base.IsDigit(Peek(body, 0)) then Error(IncompleteInt) else
      var n := DigitLength(base, body);
      var rest := body[n..];
      if Peek(rest, 0) == '.' || Peek(rest, 0) == 'e' || Peek(rest, 0) == 'E' then Error(InvalidChar)
      else IntToken(base, Cut(s[..2] + Digits(body[..n]))[2..], rest)
  }

  /** A fraction, if a digit follows the point. */
  function FractionLength(s: string): (n: nat)
    ensures n <= |s|
  {
    if Peek(s, 0) == '.' && IsDec(Peek(s, 1)) then 1 + DigitLength(Dec, s[1..]) else 0
  }

  /** An exponent, if a digit follows it, possibly after a sign. */
  function ExponentLength(s: string): (n: nat)
    ensures n <= |s|
  {
    if Peek(s, 0) != 'e' && Peek(s, 0) != 'E' then 0
    else if IsDec(Peek(s, 1)) then 1 + DigitLength(Dec, s[1..])
    else if (Peek(s, 1) == '+' || Peek(s, 1) == '-') && IsDec(Peek(s, 2)) then 2 + DigitLength(Dec, s[2..])
    else 0
  }

  function LexDecimal(s: string): Lexed {
    var n := DigitLength(Dec, s);
    var f := FractionLength(s[n..]);
    var e := ExponentLength(s[n + f..]);
    var text := Cut(Digits(s[..n + f + e]));
    if f + e > 0 then Lexed(FloatLit(text, e > 0), s[n + f + e..])
    else IntToken(Dec, text, s[n..])
  }

  function LexNumber(s: string): Lexed
    requires s != [] && IsDec(s[0])
  {
    if s[0] != '0' then LexDecimal(s) else
      var p := Peek(s, 1);
      if p == 'x' || p == 'X' then LexBased(Hex, s)
      else if p == 'b' || p == 'B' then LexBased(Bin, s)
      else if !IsDec(p) && p != '.' && p != 'e' && p != 'E' then Lexed(IntLit(0, Dec), s[1..])
      else LexDecimal(s)
  }

  // ------------------------------------------------------------------- driver

  /** A flag, or dashes that begin none. */
  function LexDash(s: string): Lexed
    requires s != [] && s[0] == '-'
  {
    if Peek(s, 1) == '-' then
      if IsIdent(Peek(s, 2)) then var n := IdentLength(s[2..]); Lexed(FlagLong(s[2..][..n]), s[2..][n..])
      else Lexed(DoubleMinus, s[2..])
    else if IsIdent(Peek(s, 1)) then var n := IdentLength(s[1..]); Lexed(FlagShort(s[1..][..n]), s[1..][n..])
    else Lexed(Minus, s[1..])
  }

  function LexString(s: string): Lexed
    requires s != []
  {
    match ScanString(s[1..])
    case Bad(error) => Error(error)
    case Closed(n) => Lexed(StrLit(s[1..][..n]), s[1..][n + 1..])
  }

  function LexWord(s: string): Lexed {
    var n := IdentLength(s); Lexed(Word(s[..n]), s[n..])
  }

  function NextToken(s: string): (r: Lexed) {
    var c := Peek(s, 0);
    if c == NUL then Lexed(Eof, s)
    else if c == '*' then Lexed(Times, s[1..])
    else if c == '-' then LexDash(s)
    else if c == '"' then LexString(s)
    else if IsDec(c) then LexNumber(s)
    else if IsIdent(c) then LexWord(s)
    else Error(InvalidChar)
  }

  lemma {:induction false} NumbersConsume(s: string)
    requires s != [] && IsDec(s[0])
    ensures var r := LexNumber(s); r.Lexed? ==> |r.rest| < |s| && (r.token.IntLit? || r.token.FloatLit?)
    ensures var r := LexNumber(s); r.Lexed? && r.token.IntLit? ==> r.token.value <= MAX_INT
  {
    assert DigitLength(Dec, s) > 0;
    hide Value, Digits, DigitLength;
  }

  lemma {:induction false} TokensConsume(s: string)
    ensures var r := NextToken(s); r.Lexed? && r.token != Eof ==> |r.rest| < |s|
  {
    if s != [] && IsDec(s[0]) { NumbersConsume(s); }
    hide LexNumber, ScanString, IdentLength, IsIdent;
  }

  datatype Tokens = Tokens(tokens: seq<Token>) | Failed(error: LexError)

  /** All tokens up to the end, without the end token. */
  function LexAll(s: string): Tokens
    decreases |s|
  {
    var t := SkipBlanks(s);
    match NextToken(t)
    case Error(error) => Failed(error)
    case Lexed(token, rest) =>
      TokensConsume(t);
      if token == Eof then Tokens([]) else Cons(token, LexAll(rest))
  }

  function Cons(token: Token, more: Tokens): Tokens {
    match more case Failed(_) => more case Tokens(ts) => Tokens([token] + ts)
  }

  // ----------------------------------------------------------------- printing

  function DigitChar(d: nat): char
    requires d < 16
  {
    if d < 10 then '0' + d as char else 'a' + (d - 10) as char
  }

  /** The digits of a number, highest first. */
  function Numeral(base: nat, v: nat): (ds: string)
    requires 2 <= base <= 16
    ensures ds != []
  {
    if v < base then [DigitChar(v)] else QuotientShrinks(v, base); Numeral(base, v / base) + [DigitChar(v % base)]
  }

  function PrintInt(v: nat, base: Radix): string {
    match base
    case Dec => Numeral(10, v)
    case Hex => "0x" + Numeral(16, v)
    case Bin => "0b" + Numeral(2, v)
  }

  /** How an unescaped character of a string is shown. */
  function Show(c: char): (t: string)
    ensures t != []
  {
    if c == '"' then "\\\""
    else if c == '\n' then "\\n"
    else if c == '\r' then "\\r"
    else if c == '\t' then "\\t"
    else if IsPrint(c) then [c]
    else "?"
  }

  /** What stands between the printed quotes. */
  function PrintRaw(raw: string): string {
    if raw == [] then []
    else if raw[0] == '\\' && |raw| > 1 then ['\\', raw[1]] + PrintRaw(raw[2..])
    else Show(raw[0]) + PrintRaw(raw[1..])
  }

  /** The enumeration values the fallback prints. */
  function Unknown(kind: nat): string
    requires kind < 10
  {
    "<unknown token_kind: " + [DigitChar(kind)] + ">"
  }

  /** Tokens the printer has no case for are printed by number. */
  function Print(t: Token): string {
    match t
    case Id(name) => name
    case StrLit(raw) => ['"'] + PrintRaw(raw) + ['"']
    case IntLit(v, base) => PrintInt(v, base)
    case FloatLit(text, _) => text
    case True => "true"
    case False => "false"
    case FlagShort(name) => "-" + name
    case FlagLong(name) => "--" + name
    case Eof => Unknown(0)
    case Minus => Unknown(3)
    case DoubleMinus => Unknown(4)
    case Times => Unknown(5)
  }

  /** Each token on a line of its own. */
  function PrintLines(ts: seq<Token>): string {
    if ts == [] then [] else Print(ts[0]) + ['\n'] + PrintLines(ts[1..])
  }

  // -------------------------------------------------------------- token values

  function Unescaped(c: char): char {
    if c == 'n' then '\n' else if c == 'r' then '\r' else if c == 't' then '\t' else if c == '0' then NUL else c
  }

  /** The string a literal stands for. */
  function StrValue(raw: string): string {
    if raw == [] then []
    else if raw[0] == '\\' && |raw| > 1 then [Unescaped(raw[1])] + StrValue(raw[2..])
    else [raw[0]] + StrValue(raw[1..])
  }

  /** Same kind and same value. */
  predicate Same(a: Token, b: Token) {
    if a.StrLit? && b.StrLit? then StrValue(a.raw) == StrValue(b.raw) else a == b
  }

  predicate SameAll(a: seq<Token>, b: seq<Token>) {
    |a| == |b| && forall k :: 0 <= k < |a| ==> Same(a[k], b[k])
  }

  // ----------------------------------------------------- tokens the lexer makes

  predicate AllIdent(name: string) {
    forall k :: 0 <= k < |name| ==> IsIdent(name[k])
  }

  /** Every backslash begins an escape, and no quote or line break stands free. */
  predicate WellScanned(raw: string) {
    if raw == [] then true
    else if raw[0] == '\\' then |raw| > 1 && IsEscape(raw[1]) && WellScanned(raw[2..])
    else raw[0] != '"' && raw[0] != '\n' && raw[0] != NUL && WellScanned(raw[1..])
  }

  /** What is true of every token the lexer can produce. */
  predicate Producible(t: Token) {
    match t
    case Id(name) => name != [] && AllIdent(name) && !IsDec(name[0]) && name[0] != '*' && name[0] != '-'
                     && name[0] != '"' && name != "true" && name != "false"
    case StrLit(raw) => WellScanned(raw)
    case IntLit(v, _) => v <= MAX_INT
    case FlagShort(name) => name != [] && AllIdent(name) && name[0] != '-'
    case FlagLong(name) => name != [] && AllIdent(name)
    case _ => true
  }

  lemma {:induction false} ScannedWell(s: string)
    ensures var r := ScanString(s); r.Closed? ==> WellScanned(s[..r.length])
    decreases |s|
  {
    var r := ScanString(s);
    if r.Closed? && r.length > 0 {
      var n := if s[0] == '\\' then 2 else 1;
      ScannedWell(s[n..]);
      assert s[..r.length][n..] == s[n..][..r.length - n];
    }
  }

  lemma {:induction false} IdentsAreIdent(s: string)
    requires s != [] && IsIdent(s[0])
    ensures var name := s[..IdentLength(s)]; name != [] && AllIdent(name) && name[0] == s[0]
  {
  }

  lemma {:induction false} LexerMakesProducible(s: string)
    ensures var r := NextToken(s); r.Lexed? ==> Producible(r.token)
  {
    if s != [] {
      if IsDec(s[0]) { NumbersConsume(s); }
      if s[0] == '-' { DashesProducible(s); }
      if s[0] == '"' { ScannedWell(s[1..]); }
      if IsIdent(s[0]) { IdentsAreIdent(s); }
      hide LexNumber, LexDash, ScanString, WellScanned, IdentLength, AllIdent;
    }
  }

  lemma {:induction false} DashesProducible(s: string)
    requires s != [] && s[0] == '-'
    ensures LexDash(s).Lexed? && Producible(LexDash(s).token)
  {
    if IsIdent(Peek(s, 1)) { IdentsAreIdent(s[1..]); }
    if IsIdent(Peek(s, 2)) { IdentsAreIdent(s[2..]); }
    hide IdentLength, AllIdent;
  }

  // --------------------------------------------------- one token printed and read

  /** Tokens that survive the trip: printed by a case of their own, all characters shown as themselves. */
  predicate PrintsBack(t: Token) {
    match t
    case StrLit(raw) => Showable(raw)
    case Eof => false
    case Minus => false
    case DoubleMinus => false
    case Times => false
    case FloatLit(_, _) => false
    case _ => true
  }

  /** Free characters are printable, tab or carriage return. */
  predicate Showable(raw: string) {
    if raw == [] then true
    else if raw[0] == '\\' && |raw| > 1 then Showable(raw[2..])
    else (IsPrint(raw[0]) || raw[0] == '\t' || raw[0] == '\r') && Showable(raw[1..])
  }

  lemma {:induction false} IdentStops(name: string, rest: string)
    requires AllIdent(name) && (rest == [] || !IsIdent(rest[0]))
    ensures IdentLength(name + rest) == |name|
    decreases |name|
  {
    if name == [] {
      assert name + rest == rest;
    } else {
      assert (name + rest)[1..] == name[1..] + rest;
      IdentStops(name[1..], rest);
    }
  }

  /** The printed text scans to its closing quote. */
  lemma {:induction false} PrintedScans(raw: string, rest: string)
    requires WellScanned(raw)
    ensures ScanString(PrintRaw(raw) + ['"'] + rest) == Closed(|PrintRaw(raw)|)
    decreases |raw|
  {
    if raw == [] {
      assert [] + ['"'] + rest == ['"'] + rest;
    } else {
      var n := if raw[0] == '\\' then 2 else 1;
      var first, more := if n == 2 then ['\\', raw[1]] else Show(raw[0]), PrintRaw(raw[n..]);
      assert first + more + ['"'] + rest == first + (more + ['"'] + rest);
      PrintedScans(raw[n..], rest);
      ScanOver(first, more + ['"'] + rest);
    }
  }

  /** A shown character or an escape is passed over whole. */
  lemma {:induction false} ScanOver(first: string, rest: string)
    requires (|first| == 2 && first[0] == '\\' && IsEscape(first[1]))
          || (|first| == 1 && IsPrint(first[0]) && first[0] != '"' && first[0] != '\\')
    ensures ScanString(first + rest) == Farther(ScanString(rest), |first|)
  {
    assert (first + rest)[|first|..] == rest;
  }

  /** Reading the printed text gives the value back exactly if every free character can be shown. */
  lemma {:induction false} PrintedValue(raw: string)
    requires WellScanned(raw)
    ensures |StrValue(PrintRaw(raw))| == |StrValue(raw)|
    ensures StrValue(PrintRaw(raw)) == StrValue(raw) <==> Showable(raw)
    decreases |raw|
  {
    if raw != [] {
      var n := if raw[0] == '\\' then 2 else 1;
      PrintedValue(raw[n..]);
      var first, more := if n == 2 then ['\\', raw[1]] else Show(raw[0]), PrintRaw(raw[n..]);
      ValueOver(first, more);
      var x, y := StrValue(more), StrValue(raw[n..]);
      var c, d := StrValue(PrintRaw(raw))[0], StrValue(raw)[0];
      assert StrValue(PrintRaw(raw)) == [c] + x && StrValue(raw) == [d] + y;
      assert ([c] + x)[1..] == x && ([d] + y)[1..] == y;
      assert c == d <==> n == 2 || IsPrint(raw[0]) || raw[0] == '\t' || raw[0] == '\r';
    }
  }

  lemma {:induction false} ValueOver(first: string, rest: string)
    requires (|first| == 2 && first[0] == '\\') || (|first| == 1 && first[0] != '\\')
    ensures StrValue(first + rest) == [if |first| == 2 then Unescaped(first[1]) else first[0]] + StrValue(rest)
  {
    assert (first + rest)[|first|..] == rest;
  }

  // ------------------------------------------------------- numbers printed and read

  /** The text or the line ends here. */
  predicate Ends(rest: string) {
    rest == [] || rest[0] == '\n'
  }

  predicate AllDigits(base: Radix, ds: string) {
    forall k :: 0 <= k < |ds| ==> base.IsDigit(ds[k])
  }

  lemma {:induction false} DigitsStop(base: Radix, ds: string, rest: string)
    requires AllDigits(base, ds) && Ends(rest)
    ensures DigitLength(base, ds + rest) == |ds| && Digits(ds) == ds
    decreases |ds|
  {
    if ds == [] {
      assert ds + rest == rest;
    } else {
      assert (ds + rest)[1..] == ds[1..] + rest;
      DigitsStop(base, ds[1..], rest);
      assert ds == [ds[0]] + ds[1..];
    }
  }

  /** A numeral consists of digits, reads back as its number, and starts with 0 only for 0. */
  lemma {:induction false} NumeralReads(base: Radix, v: nat)
    ensures var ds := Numeral(base.Base(), v);
            AllDigits(base, ds) && Value(base.Base(), ds) == v && (v > 0 ==> ds[0] != '0')
    decreases v
  {
    hide Numeral, Value, DigitChar;
    var b := base.Base();
    NumeralUnfolds(b, v);
    NoDigits(b);
    if v < b {
      NumeralStep(base, [], v);
      assert [] + [DigitChar(v)] == [DigitChar(v)];
    } else {
      QuotientShrinks(v, b);
      NumeralReads(base, v / b);
      NumeralStep(base, Numeral(b, v / b), v % b);
    }
  }

  /** One more digit at the low end. */
  lemma {:induction false} NumeralStep(base: Radix, high: string, d: nat)
    requires AllDigits(base, high) && d < base.Base()
    ensures var ds := high + [DigitChar(d)];
            AllDigits(base, ds) && Value(base.Base(), ds) == Value(base.Base(), high) * base.Base() + d
    ensures d > 0 ==> DigitChar(d) != '0'
  {
    DigitReads(base, d);
    ValueAppend(base.Base(), high, DigitChar(d));
    hide Value, DigitChar, DigitValue;
  }

  lemma {:induction false} DigitReads(base: Radix, d: nat)
    requires d < base.Base()
    ensures base.IsDigit(DigitChar(d)) && DigitValue(DigitChar(d)) == d && (d > 0 ==> DigitChar(d) != '0')
  {
  }

  lemma {:induction false} ValueAppend(b: nat, high: string, last: char)
    ensures Value(b, high + [last]) == Value(b, high) * b + DigitValue(last)
  {
    assert (high + [last])[..|high|] == high;
  }

  lemma {:induction false} QuotientShrinks(v: nat, b: nat)
    requires v >= b >= 2
    ensures 0 < v / b <= v / 2 < v && v / b * b + v % b == v
  {
    QuotientBounds(v, b, v / b, v % b);
  }

  lemma {:induction false} QuotientBounds(v: nat, b: nat, q: int, r: int)
    requires v >= b >= 2 && v == q * b + r && 0 <= r < b
    ensures 0 < q && q * 2 <= v
  {
    assert q <= 0 ==> q * b <= 0;
    NonNegative(q, b - 2);
  }

  lemma {:induction false} NonNegative(x: nat, y: nat)
    ensures x * y >= 0
  {
  }

  function Pow2(k: nat): nat {
    if k == 0 then 1 else 2 * Pow2(k - 1)
  }

  lemma {:induction false} Pow2Sum(a: nat, b: nat)
    ensures Pow2(a + b) == Pow2(a) * Pow2(b)
    decreases b
  {
    if b > 0 {
      Pow2Sum(a, b - 1);
      assert Pow2(a + b) == 2 * Pow2(a + (b - 1));
    }
  }

  /** Binary needs the most digits. */
  lemma {:induction false} NumeralLength(b: nat, v: nat, k: nat)
    requires 2 <= b <= 16 && k > 0 && v < Pow2(k)
    ensures |Numeral(b, v)| <= k
    decreases k
  {
    if v >= b {
      QuotientShrinks(v, b);
      assert k > 1 by { assert Pow2(1) == 2 * Pow2(0); }
      NumeralLength(b, v / b, k - 1);
    }
  }

  lemma {:induction false} LargestInt()
    ensures Pow2(63) == MAX_INT + 1
  {
    assert Pow2(7) == 128;
    assert Pow2(14) == Pow2(7) * Pow2(7) by { Pow2Sum(7, 7); }
    assert Pow2(21) == Pow2(14) * Pow2(7) by { Pow2Sum(14, 7); }
    assert Pow2(42) == Pow2(21) * Pow2(21) by { Pow2Sum(21, 21); }
    assert Pow2(63) == Pow2(42) * Pow2(21) by { Pow2Sum(42, 21); }
  }

  /** No number the lexer makes overfills the buffer when it is printed. */
  lemma {:induction false} NumeralFits(b: nat, v: nat)
    requires 2 <= b <= 16 && v <= MAX_INT
    ensures |Numeral(b, v)| <= 63
  {
    LargestInt();
    NumeralLength(b, v, 63);
  }

  /** What both kinds of printed number share. */
  lemma {:induction false} NumeralIsToken(base: Radix, v: nat, rest: string)
    requires v <= MAX_INT && Ends(rest)
    ensures var ds := Numeral(base.Base(), v);
            AllDigits(base, ds) && |ds| <= 63 && DigitLength(base, ds + rest) == |ds| && Digits(ds) == ds
            && IntToken(base, ds, rest) == Lexed(IntLit(v, base), rest) && (v > 0 ==> ds[0] != '0')
  {
    NumeralReads(base, v);
    NumeralFits(base.Base(), v);
    DigitsStop(base, Numeral(base.Base(), v), rest);
    hide Numeral, Digits, DigitLength, Value;
  }

  lemma {:induction false} PrintedDecimalReads(v: nat, rest: string)
    requires v <= MAX_INT && Ends(rest)
    ensures var s := PrintInt(v, Dec) + rest;
            IsDec(s[0]) && LexNumber(s) == Lexed(IntLit(v, Dec), rest)
  {
    var ds := Numeral(10, v);
    var s := ds + rest;
    if v == 0 {
      assert ds == "0";
      assert s[1..] == rest;
      hide Numeral, LexDecimal, LexBased;
    } else {
      NumeralIsToken(Dec, v, rest);
      DecimalReads(ds, rest);
      hide Numeral, LexDecimal, LexBased, IntToken, Digits, DigitLength;
      assert s[0] == ds[0];
      assert Dec.IsDigit(ds[0]);
    }
  }

  lemma {:induction false} PrintedBasedReads(v: nat, base: Radix, rest: string)
    requires v <= MAX_INT && Ends(rest) && base != Dec
    ensures var s := PrintInt(v, base) + rest;
            IsDec(s[0]) && LexNumber(s) == Lexed(IntLit(v, base), rest)
  {
    NumeralIsToken(base, v, rest);
    PrefixedReads(base, if base == Hex then "0x" else "0b", Numeral(base.Base(), v), rest);
  }

  lemma {:induction false} PrefixedReads(base: Radix, prefix: string, ds: string, rest: string)
    requires |prefix| == 2 && prefix[0] == '0' && prefix[1] == (if base == Hex then 'x' else 'b') && base != Dec
    requires ds != [] && |ds| <= 63 && Ends(rest)
    requires DigitLength(base, ds + rest) == |ds| && Digits(ds) == ds && base.IsDigit(ds[0])
    ensures LexNumber(prefix + ds + rest) == IntToken(base, ds, rest)
  {
    BasedReads(base, prefix, ds, rest);
    hide LexDecimal, LexBased, IntToken, Digits, DigitLength;
    assert prefix + ds + rest == prefix + (ds + rest);
  }

  lemma {:induction false} BasedReads(base: Radix, prefix: string, ds: string, rest: string)
    requires |prefix| == 2 && ds != [] && |ds| <= 63 && Ends(rest)
    requires DigitLength(base, ds + rest) == |ds| && Digits(ds) == ds && base.IsDigit(ds[0])
    ensures LexBased(base, prefix + (ds + rest)) == IntToken(base, ds, rest)
  {
    var s, body := prefix + (ds + rest), ds + rest;
    assert s[2..] == body && s[..2] == prefix;
    assert body[..|ds|] == ds && body[|ds|..] == rest;
    assert Cut(prefix + ds) == prefix + ds && (prefix + ds)[2..] == ds;
    hide DigitLength, Digits, Value;
  }

  lemma {:induction false} DecimalReads(ds: string, rest: string)
    requires ds != [] && |ds| <= BUFFER_LIMIT && Ends(rest)
    requires DigitLength(Dec, ds + rest) == |ds| && Digits(ds) == ds
    ensures LexDecimal(ds + rest) == IntToken(Dec, ds, rest)
  {
    var s, n := ds + rest, |ds|;
    assert s[n..] == rest && s[..n] == ds;
    assert FractionLength(rest) == 0 && ExponentLength(rest) == 0;
    hide DigitLength, Digits, Value;
    assert n + 0 + 0 == n;
  }

  // ----------------------------------------------------------------- round trip

  /**
   * What reading a printed token promises: the rest is left alone, and the token is the same exactly if
   * it prints back.
   */
  predicate ReadsBack(t: Token, rest: string) {
    var s := Print(t) + rest;
    SkipBlanks(s) == s && NextToken(s).Lexed? && NextToken(s).token != Eof
    && (Same(t, NextToken(s).token) <==> PrintsBack(t))
    && (PrintsBack(t) ==> NextToken(s).rest == rest)
  }

  /** Names and keywords. */
  lemma {:induction false} NameReads(name: string, rest: string)
    requires name != [] && AllIdent(name) && Ends(rest)
    requires !IsDec(name[0]) && name[0] != '*' && name[0] != '-' && name[0] != '"'
    ensures SkipBlanks(name + rest) == name + rest
    ensures NextToken(name + rest) == Lexed(Word(name), rest)
  {
    IdentStops(name, rest);
    var s := name + rest;
    assert s[..|name|] == name && s[|name|..] == rest;
    assert Peek(s, 1) != ' ' by { assert |name| > 1 ==> s[1] == name[1]; }
    hide IdentLength, LexDash, LexString, LexNumber;
  }

  lemma {:induction false} FlagReads(dashes: string, name: string, rest: string)
    requires dashes == "-" || dashes == "--"
    requires name != [] && AllIdent(name) && Ends(rest)
    requires dashes == "-" ==> name[0] != '-'
    ensures var s := dashes + name + rest;
            SkipBlanks(s) == s && NextToken(s) == Lexed(if dashes == "-" then FlagShort(name) else FlagLong(name), rest)
  {
    IdentStops(name, rest);
    var s, body := dashes + name + rest, name + rest;
    assert s[|dashes|..] == body && body[..|name|] == name && body[|name|..] == rest;
    assert s[|dashes|] == name[0] && s[0] == '-' && (dashes == "--" ==> s[1] == '-');
    hide IdentLength, LexString, LexNumber, LexWord;
  }

  lemma {:induction false} StringReads(raw: string, rest: string)
    requires WellScanned(raw)
    ensures var s := ['"'] + PrintRaw(raw) + ['"'] + rest;
            SkipBlanks(s) == s && NextToken(s) == Lexed(StrLit(PrintRaw(raw)), rest)
  {
    hide PrintRaw, ScanString, LexNumber, LexWord, LexDash, WellScanned;
    PrintedScans(raw, rest);
    var shown := PrintRaw(raw);
    var s, body := ['"'] + shown + ['"'] + rest, shown + ['"'] + rest;
    assert s[1..] == body && body[..|shown|] == shown && body[|shown| + 1..] == rest;
  }

  lemma {:induction false} NumberReads(v: nat, base: Radix, rest: string)
    requires v <= MAX_INT && Ends(rest)
    ensures var s := PrintInt(v, base) + rest;
            SkipBlanks(s) == s && NextToken(s) == Lexed(IntLit(v, base), rest)
  {
    if base == Dec { PrintedDecimalReads(v, rest); } else { PrintedBasedReads(v, base, rest); }
    DigitsStart(PrintInt(v, base) + rest);
  }

  lemma {:induction false} DigitsStart(s: string)
    requires s != [] && IsDec(s[0])
    ensures SkipBlanks(s) == s && NextToken(s) == LexNumber(s)
  {
    hide LexNumber, LexString, LexWord, LexDash;
  }

  /** A kind the printer numbers reads as the word up to the blank. */
  lemma {:induction false} UnknownReads(kind: nat, rest: string)
    requires kind < 10
    ensures var s := Unknown(kind) + rest;
            SkipBlanks(s) == s && NextToken(s).Lexed? && NextToken(s).token == Id("<unknown")
  {
    var word, more := "<unknown", " token_kind: " + [DigitChar(kind)] + ">" + rest;
    assert Unknown(kind) + rest == word + more;
    IdentStops(word, more);
    var s := word + more;
    assert s[..|word|] == word && s[0] == '<';
    hide IdentLength, LexDash, LexString, LexNumber;
  }

  lemma {:induction false} PrintedWordReads(t: Token, rest: string)
    requires Producible(t) && (t.Id? || t.True? || t.False?) && Ends(rest)
    ensures ReadsBack(t, rest)
  {
    assert AllIdent("true") && AllIdent("false");
    hide SkipBlanks, NextToken, AllIdent;
    NameReads(Print(t), rest);
  }

  lemma {:induction false} PrintedReads(t: Token, rest: string)
    requires Producible(t) && !t.Eof? && !t.FloatLit? && Ends(rest)
    ensures ReadsBack(t, rest)
  {
    if t.Id? || t.True? || t.False? {
      PrintedWordReads(t, rest);
      hide *;
    } else {
      hide SkipBlanks, NextToken, AllIdent, PrintRaw, PrintInt, WellScanned, StrValue, Showable, Unknown;
      match t
      case IntLit(v, base) => NumberReads(v, base, rest);
      case StrLit(raw) => StringReads(raw, rest); PrintedValue(raw);
      case FlagShort(name) => FlagReads("-", name, rest);
      case FlagLong(name) => FlagReads("--", name, rest);
      case Minus => UnknownReads(3, rest);
      case DoubleMinus => UnknownReads(4, rest);
      case Times => UnknownReads(5, rest);
      case _ => assert false;
    }
  }

  predicate RoundTrips(ts: seq<Token>) {
    var again := LexAll(PrintLines(ts));
    again.Tokens? && SameAll(ts, again.tokens)
  }

  /** Tokens as the lexer lists them, leaving floats aside. */
  predicate Listed(ts: seq<Token>) {
    forall k :: 0 <= k < |ts| ==> Producible(ts[k]) && !ts[k].Eof? && !ts[k].FloatLit?
  }

  /**
   * Printing each token on its own line and lexing again gives the same kinds and values exactly
   * if no token is a bare dash, a double dash or a star, and every string can be shown.
   */
  lemma {:induction false} PrintAndLexAgain(ts: seq<Token>)
    requires Listed(ts)
    ensures RoundTrips(ts) <==> forall k :: 0 <= k < |ts| ==> PrintsBack(ts[k])
    decreases |ts|
  {
    if ts != [] {
      var t, more := ts[0], ts[1..];
      var rest := ['\n'] + PrintLines(more);
      assert PrintLines(ts) == Print(t) + rest;
      PrintedReads(t, rest);
      PrintAndLexAgain(more);
      LexPastBreak(PrintLines(more));
      LexHead(Print(t) + rest);
      RoundTripStep(ts);
    }
  }

  lemma {:induction false} LexPastBreak(s: string)
    ensures LexAll(['\n'] + s) == LexAll(s)
  {
    assert (['\n'] + s)[1..] == s;
    hide NextToken;
  }

  lemma {:induction false} LexHead(s: string)
    requires SkipBlanks(s) == s && NextToken(s).Lexed? && NextToken(s).token != Eof
    ensures LexAll(s) == Cons(NextToken(s).token, LexAll(NextToken(s).rest))
  {
    hide NextToken, SkipBlanks;
  }

  lemma {:induction false} RoundTripStep(ts: seq<Token>)
    requires Listed(ts) && ts != []
    requires var rest := ['\n'] + PrintLines(ts[1..]);
             ReadsBack(ts[0], rest) && LexAll(rest) == LexAll(PrintLines(ts[1..]))
             && PrintLines(ts) == Print(ts[0]) + rest
             && LexAll(PrintLines(ts)) == Cons(NextToken(PrintLines(ts)).token, LexAll(NextToken(PrintLines(ts)).rest))
    ensures RoundTrips(ts) <==> PrintsBack(ts[0]) && RoundTrips(ts[1..])
  {
    hide LexAll, NextToken, SkipBlanks, PrintLines, Print, PrintsBack, Same;
    var head := NextToken(PrintLines(ts)).token;
    var again := LexAll(PrintLines(ts));
    if again.Tokens? {
      var tail := again.tokens[1..];
      assert again.tokens == [head] + tail;
      SameAllStep(ts, again.tokens);
    }
  }

  lemma {:induction false} SameAllStep(a: seq<Token>, b: seq<Token>)
    requires a != [] && b != []
    ensures SameAll(a, b) <==> Same(a[0], b[0]) && SameAll(a[1..], b[1..])
  {
    hide Same;
    if Same(a[0], b[0]) && SameAll(a[1..], b[1..]) {
      forall k | 0 <= k < |a| ensures Same(a[k], b[k]) {
        if k > 0 { assert a[k] == a[1..][k - 1] && b[k] == b[1..][k - 1]; }
      }
    }
  }

  lemma {:induction false} LexedIsProducible(s: string)
    ensures var r := LexAll(s);
            r.Tokens? ==> forall k :: 0 <= k < |r.tokens| ==> Producible(r.tokens[k]) && !r.tokens[k].Eof?
    decreases |s|
  {
    var t := SkipBlanks(s);
    LexerMakesProducible(t);
    TokensConsume(t);
    hide NextToken, SkipBlanks, Producible;
    if NextToken(t).Lexed? && NextToken(t).token != Eof { LexedIsProducible(NextToken(t).rest); }
  }

  /** The same for whatever the lexer made of any text. */
  lemma {:induction false} AnyTextLexedAgain(s: string)
    requires LexAll(s).Tokens? && forall k :: 0 <= k < |LexAll(s).tokens| ==> !LexAll(s).tokens[k].FloatLit?
    ensures RoundTrips(LexAll(s).tokens) <==> forall k :: 0 <= k < |LexAll(s).tokens| ==>
            PrintsBack(LexAll(s).tokens[k])
  {
    LexedIsProducible(s);
    PrintAndLexAgain(LexAll(s).tokens);
  }

  /** A printed token on its own lexes to itself, if it prints back at all. */
  lemma {:induction false} PrintedAloneReads(t: Token)
    requires Producible(t) && PrintsBack(t)
    ensures LexAll(Print(t)).Tokens? && SameAll([t], LexAll(Print(t)).tokens)
  {
    hide NextToken, SkipBlanks, Print, Producible, Same;
    assert !t.Eof? && !t.FloatLit?;
    PrintedReads(t, []);
    assert Print(t) + [] == Print(t);
    LexHead(Print(t));
    EmptyLexes();
  }

  lemma {:induction false} EmptyLexes()
    ensures LexAll([]) == Tokens([])
  {
  }

  /** A star does not come back: it is printed by number and read as a name. */
  lemma {:induction false} StarExample()
    ensures LexAll("*") == Tokens([Times]) && !RoundTrips([Times])
  {
    hide RoundTrips, Print, Producible;
    assert SkipBlanks("*") == "*" && "*"[1..] == [];
    LexHead("*");
    EmptyLexes();
    TimesIsListed();
    PrintAndLexAgain([Times]);
    assert ![Times][0].IntLit?;
    assert !PrintsBack([Times][0]);
  }

  lemma {:induction false} TimesIsListed()
    ensures Listed([Times])
  {
  }

  // ------------------------------------------------------- integers as they are written

  predicate IsLower(base: Radix, c: char) {
    base.IsDigit(c) && !('A' <= c <= 'F')
  }

  /** Small letters, and no 0 in front of anything. */
  predicate CanonicalDigits(base: Radix, ds: string) {
    ds != [] && (forall k :: 0 <= k < |ds| ==> IsLower(base, ds[k])) && (|ds| > 1 ==> ds[0] != '0')
  }

  function Spelled(base: Radix, ds: string): string {
    match base
    case Dec => ds
    case Hex => "0x" + ds
    case Bin => "0b" + ds
  }

  /** An integer without underscores, capitals, blanks or needless zeros. */
  ghost predicate Canonical(text: string) {
    exists base, ds :: CanonicalDigits(base, ds) && text == Spelled(base, ds)
  }

  lemma {:induction false} AtLeast(x: nat, d: nat)
    requires x > 0
    ensures x * d >= d
  {
    assert x * d == (x - 1) * d + d;
  }

  lemma {:induction false} DivisionIsUnique(d: nat, p: nat, t: nat, q: nat, r: nat)
    requires p * d + t == q * d + r && t < d && r < d
    ensures p == q
  {
    assert (p - q) * d == p * d - q * d && (q - p) * d == q * d - p * d;
    if p > q { AtLeast(p - q, d); }
    if q > p { AtLeast(q - p, d); }
  }

  lemma {:induction false} QuotientIs(v: nat, d: nat, q: nat, r: nat)
    requires d > 0 && v == q * d + r && r < d
    ensures v / d == q
  {
    DivisionIsUnique(d, v / d, v % d, q, r);
  }

  lemma {:induction false} DigitBack(base: Radix, c: char)
    requires IsLower(base, c)
    ensures DigitValue(c) < base.Base() && DigitChar(DigitValue(c)) == c && (c != '0' ==> DigitValue(c) > 0)
  {
  }

  lemma {:induction false} CanonicalFront(base: Radix, ds: string)
    requires CanonicalDigits(base, ds) && |ds| > 1
    ensures CanonicalDigits(base, ds[..|ds| - 1]) && ds[..|ds| - 1][0] != '0' && IsLower(base, ds[|ds| - 1])
  {
  }

  /** Canonical digits are the numeral of their value. */
  lemma {:induction false} NumeralOfValue(base: Radix, ds: string)
    requires CanonicalDigits(base, ds)
    ensures var v := Value(base.Base(), ds);
            Numeral(base.Base(), v) == ds && (ds[0] != '0' ==> v > 0)
    decreases |ds|
  {
    hide Numeral, DigitChar, DigitValue, Value, IsLower;
    var b, high, last := base.Base(), ds[..|ds| - 1], ds[|ds| - 1];
    assert ds == high + [last];
    ValueAppend(b, high, last);
    var v, d := Value(b, ds), DigitValue(last);
    assert IsLower(base, last);
    DigitBack(base, last);
    if |ds| == 1 {
      NoDigits(b);
      NumeralUnfolds(b, v);
      assert high == [] && ds == [last];
    } else {
      CanonicalFront(base, ds);
      NumeralOfValue(base, high);
      var q := Value(b, high);
      LeadsTo(b, q, d, v);
      NumeralUnfolds(b, v);
    }
  }

  lemma {:induction false} NoDigits(b: nat)
    ensures Value(b, []) == 0
  {
  }

  lemma {:induction false} NumeralUnfolds(b: nat, v: nat)
    requires 2 <= b <= 16
    ensures v < b ==> Numeral(b, v) == [DigitChar(v)]
    ensures v >= b ==> Numeral(b, v) == Numeral(b, v / b) + [DigitChar(v % b)]
  {
  }

  lemma {:induction false} LeadsTo(b: nat, q: nat, d: nat, v: nat)
    requires b >= 2 && q > 0 && d < b && v == q * b + d
    ensures v >= b && v / b == q && v % b == d
  {
    AtLeast(q, b);
    QuotientIs(v, b, q, d);
  }

  lemma {:induction false} NumeralIsCanonical(base: Radix, v: nat)
    ensures CanonicalDigits(base, Numeral(base.Base(), v))
    decreases v
  {
    hide DigitChar;
    var b := base.Base();
    DigitIsLower(base, v % b);
    if v >= b {
      QuotientShrinks(v, b);
      NumeralIsCanonical(base, v / b);
      NumeralReads(base, v);
    } else {
      assert v % b == v;
    }
  }

  lemma {:induction false} DigitIsLower(base: Radix, d: nat)
    requires d < base.Base()
    ensures IsLower(base, DigitChar(d))
  {
  }

  /** What canonical text lexes to, if its digits fit the buffer. */
  lemma {:induction false} CanonicalLexes(base: Radix, ds: string)
    requires CanonicalDigits(base, ds)
    ensures var r := LexAll(Spelled(base, ds));
            r.Tokens? ==> |r.tokens| == 1 && r.tokens[0].IntLit? && r.tokens[0].base == base
                          && exists n: nat :: 0 < n <= |ds| && (n == |ds| || n > 63)
                                              && r.tokens[0].value == Value(base.Base(), ds[..n])
  {
    hide SkipBlanks, LexNumber, Value, NextToken, CanonicalDigits;
    var s := Spelled(base, ds);
    SpelledNumber(base, ds);
    DigitsStart(s);
    var r := LexNumber(s);
    if r.Lexed? {
      LexHead(s);
      EmptyLexes();
    } else {
      LexFails(s);
    }
  }

  lemma {:induction false} LexFails(s: string)
    requires SkipBlanks(s) == s && NextToken(s).Error?
    ensures LexAll(s).Failed?
  {
    hide SkipBlanks, NextToken;
  }

  lemma {:induction false} SpelledNumber(base: Radix, ds: string)
    requires CanonicalDigits(base, ds)
    ensures var s := Spelled(base, ds);
            && s != [] && IsDec(s[0])
            && exists n: nat :: 0 < n <= |ds| && (n == |ds| || n > 63) && LexNumber(s) == IntToken(base, ds[..n], [])
  {
    hide Value, Digits, DigitLength, IntToken, LexDecimal, LexBased;
    assert AllDigits(base, ds);
    DigitsStop(base, ds, []);
    assert ds + [] == ds && ds[..|ds|] == ds && ds[|ds|..] == [];
    if base == Dec {
      DecimalCut(ds);
    } else {
      BasedCut(base, if base == Hex then "0x" else "0b", ds);
    }
  }

  lemma {:induction false} DecimalCut(ds: string)
    requires CanonicalDigits(Dec, ds) && DigitLength(Dec, ds) == |ds| && Digits(ds) == ds
    ensures exists n: nat :: 0 < n <= |ds| && (n == |ds| || n > 63) && LexNumber(ds) == IntToken(Dec, ds[..n], [])
  {
    hide Value, Digits, DigitLength;
    var n := if |ds| > BUFFER_LIMIT then BUFFER_LIMIT else |ds|;
    assert ds[..|ds|] == ds && ds[|ds|..] == [];
    assert Cut(ds) == ds[..n];
    if ds[0] != '0' {
      assert FractionLength([]) == 0 && ExponentLength([]) == 0;
      assert |ds| + 0 + 0 == |ds|;
      assert LexDecimal(ds) == IntToken(Dec, ds[..n], []);
    } else {
      assert ds == "0";
      ZeroReads();
      assert ds[..1] == "0" && ds[1..] == [];
    }
  }

  lemma {:induction false} ZeroReads()
    ensures Value(10, "0") == 0
  {
    assert "0"[..0] == [];
  }

  lemma {:induction false} BasedCut(base: Radix, prefix: string, ds: string)
    requires base != Dec && |prefix| == 2 && prefix[0] == '0' && prefix[1] == (if base == Hex then 'x' else 'b')
    requires CanonicalDigits(base, ds) && DigitLength(base, ds) == |ds| && Digits(ds) == ds
    ensures exists n: nat ::
      0 < n <= |ds| && (n == |ds| || n > 63) && LexNumber(prefix + ds) == IntToken(base, ds[..n], [])
  {
    hide Value, Digits, DigitLength, IntToken, LexDecimal;
    var s, n := prefix + ds, if |ds| > BUFFER_LIMIT - 2 then BUFFER_LIMIT - 2 else |ds|;
    assert s[2..] == ds && s[..2] == prefix && ds[..|ds|] == ds && ds[|ds|..] == [];
    assert Cut(prefix + ds)[2..] == ds[..n];
    assert LexBased(base, s) == IntToken(base, ds[..n], []);
  }

  /** A canonical integer that lexes is printed as it was written. */
  lemma {:induction false} CanonicalPrintsBack(base: Radix, ds: string)
    requires CanonicalDigits(base, ds)
    ensures var r := LexAll(Spelled(base, ds));
            r.Tokens? ==> |r.tokens| == 1 && r.tokens[0].IntLit? && Print(r.tokens[0]) == Spelled(base, ds)
  {
    hide LexAll, Numeral, Value, CanonicalDigits, Producible;
    CanonicalLexes(base, ds);
    var r := LexAll(Spelled(base, ds));
    if r.Tokens? {
      var n: nat :| 0 < n <= |ds| && (n == |ds| || n > 63) && r.tokens[0].value == Value(base.Base(), ds[..n]);
      CanonicalPart(base, ds, n);
      NumeralOfValue(base, ds[..n]);
      LexedIsProducible(Spelled(base, ds));
      InRange(r.tokens[0]);
      NumeralFits(base.Base(), r.tokens[0].value);
      assert ds[..|ds|] == ds;
    }
  }

  lemma {:induction false} InRange(t: Token)
    requires t.IntLit? && Producible(t)
    ensures t.value <= MAX_INT
  {
  }

  lemma {:induction false} CanonicalPart(base: Radix, ds: string, n: nat)
    requires CanonicalDigits(base, ds) && 0 < n <= |ds|
    ensures CanonicalDigits(base, ds[..n])
  {
  }

  /** An integer token is printed as it was written exactly if it was written canonically. */
  lemma {:induction false} PrintsAsWritten(text: string)
    requires LexAll(text).Tokens? && |LexAll(text).tokens| == 1 && LexAll(text).tokens[0].IntLit?
    ensures Print(LexAll(text).tokens[0]) == text <==> Canonical(text)
  {
    hide LexAll, Numeral, CanonicalDigits;
    var t := LexAll(text).tokens[0];
    if Canonical(text) {
      var base, ds :| CanonicalDigits(base, ds) && text == Spelled(base, ds);
      CanonicalPrintsBack(base, ds);
    }
    if Print(t) == text {
      NumeralIsCanonical(t.base, t.value);
      assert text == Spelled(t.base, Numeral(t.base.Base(), t.value));
    }
  }

  lemma {:induction false} SevenReads()
    ensures LexNumber("007") == Lexed(IntLit(7, Dec), "")
  {
    hide DigitLength, Digits, Value, LexDecimal;
    var ds := "007";
    assert AllDigits(Dec, ds);
    DigitsStop(Dec, ds, []);
    assert ds + [] == ds;
    DecimalReads(ds, []);
    NoDigits(10);
    ValueAppend(10, "", '0');
    ValueAppend(10, "0", '0');
    ValueAppend(10, "00", '7');
    assert "" + ['0'] == "0" && "0" + ['0'] == "00" && "00" + ['7'] == "007";
  }

  // -------------------------------------------------------------- strings written

  /** A string written so that the lexer can read it: what has an escape is escaped. */
  function Written(v: string): string {
    if v == [] then [] else WrittenChar(v[0]) + Written(v[1..])
  }

  function WrittenChar(c: char): string {
    match c
    case '\n' => "\\n"
    case '\r' => "\\r"
    case '\t' => "\\t"
    case '\\' => "\\\\"
    case '"' => "\\\""
    case '\0' => "\\0"
    case _ => [c]
  }

  /** Every string can be written, and is read back as itself. */
  lemma {:induction false} WrittenReads(v: string)
    ensures WellScanned(Written(v)) && StrValue(Written(v)) == v
    decreases |v|
  {
    if v != [] {
      WrittenReads(v[1..]);
      WrittenFirst(v[0], Written(v[1..]));
      assert v == [v[0]] + v[1..];
    }
  }

  lemma {:induction false} WrittenFirst(c: char, more: string)
    requires WellScanned(more)
    ensures WellScanned(WrittenChar(c) + more) && StrValue(WrittenChar(c) + more) == [c] + StrValue(more)
  {
    var first := WrittenChar(c);
    assert (first + more)[|first|..] == more;
  }

  lemma {:induction false} ScanThrough(raw: string, rest: string)
    requires WellScanned(raw)
    ensures ScanString(raw + rest) == Farther(ScanString(rest), |raw|)
    decreases |raw|
  {
    if raw == [] {
      assert raw + rest == rest;
    } else {
      var n := if raw[0] == '\\' then 2 else 1;
      assert (raw + rest)[n..] == raw[n..] + rest;
      ScanThrough(raw[n..], rest);
    }
  }

  /** Scanning ends at the first quote that is not escaped, at a bad escape, or unclosed. */
  lemma {:induction false} ScanEnds(raw: string, rest: string)
    requires WellScanned(raw)
    ensures ScanString(raw + (['"'] + rest)) == Closed(|raw|)
    ensures ScanString(raw) == Bad(UnclosedString)
    ensures ScanString(raw + (['\n'] + rest)) == Bad(UnclosedString)
    ensures rest != [] && rest[0] !in "nrt\\\"0\n\0" ==> ScanString(raw + (['\\'] + rest)) == Bad(UnknownEscape)
  {
    hide WellScanned;
    ScanThrough(raw, []);
    ScanThrough(raw, ['"'] + rest);
    ScanThrough(raw, ['\n'] + rest);
    ScanThrough(raw, ['\\'] + rest);
    assert raw + [] == raw;
  }

  /** Any string can be given in a text: it lexes to one literal that stands for it. */
  lemma {:induction false} AnyStringReads(v: string)
    ensures var text := ['"'] + Written(v) + ['"'];
            LexAll(text) == Tokens([StrLit(Written(v))]) && StrValue(Written(v)) == v
  {
    hide ScanString, StrValue, WellScanned, Written, LexNumber, LexWord, LexDash;
    WrittenReads(v);
    ScanEnds(Written(v), []);
    var body := Written(v) + ['"'];
    var text := ['"'] + Written(v) + ['"'];
    assert text[1..] == body && body == Written(v) + (['"'] + []);
    assert body[..|Written(v)|] == Written(v) && body[|Written(v)| + 1..] == [];
    QuoteStarts(text);
    LexHead(text);
    EmptyLexes();
  }

  lemma {:induction false} QuoteStarts(s: string)
    requires s != [] && s[0] == '"'
    ensures SkipBlanks(s) == s && NextToken(s) == LexString(s)
  {
    hide LexNumber, LexWord, LexDash, LexString;
  }

  // ------------------------------------------------------------ blanks, digits, floats

  lemma {:induction false} SameAfterBlanks(s: string, t: string)
    requires SkipBlanks(s) == SkipBlanks(t)
    ensures LexAll(s) == LexAll(t)
  {
    hide NextToken, SkipBlanks;
  }

  /** Blanks and comments up to the end of their line count for nothing. */
  lemma {:induction false} BlanksCountForNothing(blank: char, comment: string, s: string)
    requires blank == ' ' || blank == '\t' || blank == '\n' || blank == '\r'
    requires '\n' !in comment && NUL !in comment
    ensures LexAll([blank] + s) == LexAll(s)
    ensures LexAll(['#', ' '] + comment + (['\n'] + s)) == LexAll(s)
  {
    hide LexAll, SkipLine;
    assert ([blank] + s)[1..] == s && (['\n'] + s)[1..] == s;
    SameAfterBlanks([blank] + s, s);
    var all := ['#', ' '] + comment + (['\n'] + s);
    assert all[1..] == [' '] + comment + (['\n'] + s);
    SkipsComment([' '] + comment, s);
    assert SkipBlanks(all) == SkipBlanks(['\n'] + s);
    SameAfterBlanks(all, s);
  }

  lemma {:induction false} SkipsComment(comment: string, s: string)
    requires '\n' !in comment && NUL !in comment
    ensures SkipLine(comment + (['\n'] + s)) == ['\n'] + s
    decreases |comment|
  {
    if comment == [] {
      assert comment + (['\n'] + s) == ['\n'] + s;
    } else {
      assert (comment + (['\n'] + s))[1..] == comment[1..] + (['\n'] + s);
      SkipsComment(comment[1..], s);
    }
  }

  /** Capital hexadecimal digits are worth what small ones are. */
  lemma {:induction false} CapitalsCountAlike(k: nat)
    requires k < 6
    ensures DigitValue('A' + k as char) == DigitValue('a' + k as char) == 10 + k
    ensures Hex.IsDigit('A' + k as char) && Hex.IsDigit('a' + k as char)
  {
  }

  predicate Loose(base: Radix, s: string) {
    forall k :: 0 <= k < |s| ==> s[k] == '_' || base.IsDigit(s[k])
  }

  lemma {:induction false} LooseIsWhole(base: Radix, s: string)
    requires Loose(base, s)
    ensures DigitLength(base, s) == |s|
    decreases |s|
  {
    if s != [] { LooseIsWhole(base, s[1..]); }
  }

  lemma {:induction false} DigitsSkip(a: string, b: string)
    ensures Digits(a + "_" + b) == Digits(a + b)
    decreases |a|
  {
    if a == [] {
      assert a + "_" + b == ['_'] + b && (['_'] + b)[1..] == b && a + b == b;
    } else {
      assert (a + "_" + b)[1..] == a[1..] + "_" + b && (a + b)[1..] == a[1..] + b;
      DigitsSkip(a[1..], b);
    }
  }

  /** Underscores after the first digit count for nothing, except after a 0 that begins a decimal number. */
  lemma {:induction false} UnderscoresCountForNothing(base: Radix, a: string, b: string)
    requires a != [] && base.IsDigit(a[0]) && Loose(base, a) && Loose(base, b) && (base == Dec ==> a[0] != '0')
    ensures LexNumber(Spelled(base, a + "_" + b)) == LexNumber(Spelled(base, a + b))
  {
    hide Digits, DigitLength, Value, IntToken;
    var x, y := a + "_" + b, a + b;
    assert Loose(base, x) && Loose(base, y);
    LooseIsWhole(base, x);
    LooseIsWhole(base, y);
    DigitsSkip(a, b);
    assert x[..|x|] == x && x[|x|..] == [] && y[..|y|] == y && y[|y|..] == [];
    if base == Dec {
      LooseDecimal(x);
      LooseDecimal(y);
    } else {
      LooseBased(base, if base == Hex then "0x" else "0b", x);
      LooseBased(base, if base == Hex then "0x" else "0b", y);
    }
  }

  lemma {:induction false} LooseDecimal(s: string)
    requires s != [] && IsDec(s[0]) && s[0] != '0' && DigitLength(Dec, s) == |s|
    ensures LexNumber(s) == IntToken(Dec, Cut(Digits(s)), [])
  {
    hide Digits, DigitLength, Value, Cut, IntToken;
    assert s[..|s|] == s && s[|s|..] == [];
    assert FractionLength([]) == 0 && ExponentLength([]) == 0;
    assert |s| + 0 + 0 == |s|;
  }

  lemma {:induction false} LooseBased(base: Radix, prefix: string, s: string)
    requires base != Dec && |prefix| == 2 && prefix[0] == '0' && prefix[1] == (if base == Hex then 'x' else 'b')
    requires s != [] && base.IsDigit(s[0]) && DigitLength(base, s) == |s|
    ensures LexNumber(prefix + s) == IntToken(base, Cut(prefix + Digits(s))[2..], [])
  {
    hide Digits, DigitLength, Value, IntToken, LexDecimal;
    assert (prefix + s)[2..] == s && (prefix + s)[..2] == prefix;
    assert s[..|s|] == s && s[|s|..] == [];
  }

  predicate Decimals(s: string) {
    s != [] && forall k :: 0 <= k < |s| ==> IsDec(s[k])
  }

  lemma {:induction false} DecimalsRead(s: string, rest: string)
    requires Decimals(s) && (rest == [] || (rest[0] != '_' && !IsDec(rest[0])))
    ensures DigitLength(Dec, s + rest) == |s| && Digits(s) == s
    decreases |s|
  {
    assert (s + rest)[1..] == s[1..] + rest;
    assert s == [s[0]] + s[1..];
    if |s| > 1 {
      DecimalsRead(s[1..], rest);
    } else {
      assert s[1..] + rest == rest && s[1..] == [];
    }
  }

  /** A point and digits, or an exponent, make a float, which keeps its text; only the exponent is marked. */
  lemma {:induction false} FloatsKeepTheirText(a: string, b: string, mark: char)
    requires Decimals(a) && Decimals(b) && |a| + 1 + |b| <= BUFFER_LIMIT
    requires mark == '.' || mark == 'e' || mark == 'E'
    requires a[0] == '0' ==> |a| == 1 || IsDec(a[1])
    ensures LexNumber(a + [mark] + b) == Lexed(FloatLit(a + [mark] + b, mark != '.'), [])
  {
    hide Digits, DigitLength, Value, LexDecimal;
    var s, tail := a + [mark] + b, [mark] + b;
    assert s == a + tail;
    assert Peek(s, 1) == (if |a| > 1 then a[1] else mark);
    DecimalsRead(a, tail);
    DecimalsRead(b, []);
    assert b + [] == b && tail[1..] == b;
    TextDigits(s);
    FloatParts(a, b, mark);
  }

  lemma {:induction false} FloatParts(a: string, b: string, mark: char)
    requires Decimals(b) && |a| + 1 + |b| <= BUFFER_LIMIT && (mark == '.' || mark == 'e' || mark == 'E')
    requires var s := a + [mark] + b; DigitLength(Dec, s) == |a| && Digits(s) == s && DigitLength(Dec, b) == |b|
    ensures LexDecimal(a + [mark] + b) == Lexed(FloatLit(a + [mark] + b, mark != '.'), [])
  {
    hide Digits, DigitLength, Value;
    var s, tail := a + [mark] + b, [mark] + b;
    assert s[|a|..] == tail && tail[1..] == b && s[|s|..] == [] && s[..|s|] == s && Cut(s) == s;
    if mark == '.' {
      assert FractionLength(tail) == 1 + |b|;
      assert s[|a| + (1 + |b|)..] == [];
    } else {
      assert FractionLength(tail) == 0 && ExponentLength(tail) == 1 + |b|;
      assert |a| + 0 == |a|;
    }
  }

  lemma {:induction false} TextDigits(s: string)
    requires '_' !in s
    ensures Digits(s) == s
    decreases |s|
  {
    if s != [] {
      TextDigits(s[1..]);
      assert s == [s[0]] + s[1..];
    }
  }

  /** Dashes alone are tokens of their own. */
  lemma {:induction false} BareDashes()
    ensures LexAll("-") == Tokens([Minus]) && LexAll("--") == Tokens([DoubleMinus])
  {
    hide LexNumber, LexString, LexWord, LexAll;
    assert "-"[1..] == [] && "--"[2..] == [];
    assert SkipBlanks("-") == "-" && NextToken("-") == Lexed(Minus, []);
    assert SkipBlanks("--") == "--" && NextToken("--") == Lexed(DoubleMinus, []);
    LexHead("-");
    LexHead("--");
    EmptyLexes();
  }
}
