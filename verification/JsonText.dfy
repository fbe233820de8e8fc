/**
 * JSON string text (section 7 of RFC 8259) on native bytes, and the payload of the `--json`
 * envelope that travels in it.
 */
module JsonText {
  import opened Native
  import Base64
  import Blockwise

  const LOWER_B: Byte := 0x82
  const LOWER_D: Byte := 0x84
  const LOWER_F: Byte := 0x86
  const LOWER_N: Byte := 0x95
  const LOWER_R: Byte := 0x99
  const LOWER_T: Byte := 0xA3
  const LOWER_U: Byte := 0xA4
  const LOWER_X: Byte := 0xA7
  const UPPER_X: Byte := 0xE7

  // ---------------------------------------------------------------- escaping

  /** The letter of a two-character escape, for the bytes that have one. */
  function Letter(b: Byte): Option<Byte> {
    if b == QUOTE then Some(QUOTE)
    else if b == BACKSLASH then Some(BACKSLASH)
    else if b == BACKSPACE then Some(LOWER_B)
    else if b == FORM_FEED then Some(LOWER_F)
    else if b == NEW_LINE then Some(LOWER_N)
    else if b == CARRIAGE_RETURN then Some(LOWER_R)
    else if b == TAB then Some(LOWER_T)
    else None
  }

  /** U+FFFD, which stands in for every control byte without a letter. */
  function Replacement(): Bytes {
    [BACKSLASH, LOWER_U, LOWER_F, LOWER_F, LOWER_F, LOWER_D]
  }

  function EscapeByte(b: Byte): (e: Bytes)
    ensures e != []
  {
    match Letter(b)
    case Some(l) => [BACKSLASH, l]
    case None => if IsCntrl(b) then Replacement() else [b]
  }

  function Escape(s: Bytes): Bytes {
    if s == [] then [] else EscapeByte(s[0]) + Escape(s[1..])
  }

  method EscapeJsonString(input: Bytes) returns (output: Bytes)
    ensures output == Escape(input)
  {
    output := [];
    for k := 0 to |input|
      invariant output + Escape(input[k..]) == Escape(input)
    {
      var c := input[k];
      assert input[k..][1..] == input[k + 1..];
      ghost var before := output;
      if c == QUOTE { output := output + [BACKSLASH, QUOTE]; }
      else if c == BACKSLASH { output := output + [BACKSLASH, BACKSLASH]; }
      else if c == BACKSPACE { output := output + [BACKSLASH, LOWER_B]; }
      else if c == FORM_FEED { output := output + [BACKSLASH, LOWER_F]; }
      else if c == NEW_LINE { output := output + [BACKSLASH, LOWER_N]; }
      else if c == CARRIAGE_RETURN { output := output + [BACKSLASH, LOWER_R]; }
      else if c == TAB { output := output + [BACKSLASH, LOWER_T]; }
      else if IsCntrl(c) { output := output + Replacement(); }
      else { output := output + [c]; }
      assert output == before + EscapeByte(c);
      Regroup(before, EscapeByte(c), Escape(input[k + 1..]));
    }
    assert output + [] == output;
  }

  lemma {:induction false} Regroup(x: Bytes, y: Bytes, z: Bytes)
    ensures x + (y + z) == x + y + z
  {
  }

  // -------------------------------------------------------------- the grammar

  function HexValue(c: Byte): Option<nat> {
    if 0xF0 <= c <= 0xF9 then Some(c - 0xF0)
    else if 0x81 <= c <= 0x86 then Some(c - 0x81 + 10)
    else if 0xC1 <= c <= 0xC6 then Some(c - 0xC1 + 10)
    else None
  }

  predicate IsEscapeLetter(c: Byte) {
    c == QUOTE || c == BACKSLASH || c == SLASH || c == LOWER_B || c == LOWER_F
    || c == LOWER_N || c == LOWER_R || c == LOWER_T
  }

  /** Characters of a JSON string: none of the three kinds that must be escaped, or an escape. */
  predicate StringBody(t: Bytes)
    decreases |t|
  {
    if t == [] then true
    else if t[0] == BACKSLASH then
      if |t| >= 2 && IsEscapeLetter(t[1]) then StringBody(t[2..])
      else if |t| >= 6 && t[1] == LOWER_U then (forall k :: 2 <= k < 6 ==> HexValue(t[k]).Some?) && StringBody(t[6..])
      else false
    else t[0] != QUOTE && !IsCntrl(t[0]) && StringBody(t[1..])
  }

  /** Whatever the bytes, the escaped text may stand between quotation marks. */
  lemma {:induction false} EscapeMakesStringBody(s: Bytes)
    ensures StringBody(Escape(s))
  {
    if s != [] {
      EscapeMakesStringBody(s[1..]);
      var e, rest := EscapeByte(s[0]), Escape(s[1..]);
      assert (e + rest)[|e|..] == rest;
    }
  }

  // -------------------------------------------------------------- unescaping

  /** `strtoul(text, &end, 16)` on the four characters: the value, if the end is reached. */
  function HexNumber(hex: Bytes): Option<nat>
    requires |hex| == 4
  {
    var t := SkipSpace(hex);
    var negative := t != [] && t[0] == MINUS;
    var u := if t != [] && (t[0] == MINUS || t[0] == PLUS) then t[1..] else t;
    var prefixed := |u| >= 3 && u[0] == DIGIT_ZERO && (u[1] == LOWER_X || u[1] == UPPER_X) && HexValue(u[2]).Some?;
    var v := if prefixed then u[2..] else u;
    if v == [] then None else
      match Digits(v, 0)
      case None => None
      case Some(n) => Some(if negative && n > 0 then 0x1_0000_0000_0000_0000 - n % 0x1_0000_0000_0000_0000 else n)
  }

  predicate IsSpace(c: Byte) {
    c == BLANK || c == TAB || c == NEW_LINE || c == 0x0B || c == FORM_FEED || c == CARRIAGE_RETURN
  }

  function SkipSpace(s: Bytes): (t: Bytes)
    ensures |t| <= |s|
  {
    if s != [] && IsSpace(s[0]) then SkipSpace(s[1..]) else s
  }

  function Digits(s: Bytes, n: nat): Option<nat>
    decreases |s|
  {
    if s == [] then Some(n)
    else match HexValue(s[0]) case None => None case Some(d) => Digits(s[1..], 16 * n + d)
  }

  /** The byte a `\u` escape stands for; control codes and anything past a byte are refused. */
  function CodePoint(hex: Bytes): Option<Byte>
    requires |hex| == 4
  {
    match HexNumber(hex)
    case None => None
    case Some(val) => if val < 256 && !IsCntrl(val) then Some(val) else None
  }

  /** The byte a two-character escape stands for. */
  function Unletter(c: Byte): Option<Byte> {
    if c == QUOTE then Some(QUOTE)
    else if c == BACKSLASH then Some(BACKSLASH)
    else if c == SLASH then Some(SLASH)
    else if c == LOWER_B then Some(BACKSPACE)
    else if c == LOWER_F then Some(FORM_FEED)
    else if c == LOWER_N then Some(NEW_LINE)
    else if c == LOWER_R then Some(CARRIAGE_RETURN)
    else if c == LOWER_T then Some(TAB)
    else None
  }

  /** What stands at the head of a text: the bytes it means and how much of it they take; None is the exception. */
  function Head(s: Bytes): Option<(Bytes, nat)>
    requires s != []
  {
    if s[0] != BACKSLASH || |s| == 1 then Some(([s[0]], 1))
    else if Unletter(s[1]).Some? then Some(([Unletter(s[1]).value], 2))
    else if s[1] == LOWER_U && |s| > 5 then
      match CodePoint(s[2..6])
      case None => None
      case Some(b) => Some(([b], 6))
    else Some(([BACKSLASH, s[1]], 2))
  }

  function Unescape(s: Bytes): Option<Bytes>
    decreases |s|
  {
    if s == [] then Some([]) else
      match Head(s)
      case None => None
      case Some((bytes, n)) => Prefixed(bytes, if 0 < n <= |s| then Unescape(s[n..]) else None)
  }

  function Prefixed(bytes: Bytes, rest: Option<Bytes>): Option<Bytes> {
    if rest.None? then None else Some(bytes + rest.value)
  }

  method UnescapeJsonString(s: Bytes) returns (r: Option<Bytes>)
    ensures r == Unescape(s)
  {
    var res: Bytes := [];
    var i := 0;
    assert s[0..] == s;
    PrefixedNothing(Unescape(s));
    hide CodePoint, Unescape, Unletter, Prefixed;
    while i < |s|
      invariant 0 <= i <= |s| && Prefixed(res, Unescape(s[i..])) == Unescape(s)
    {
      UnescapeHead(s, i, res);
      if s[i] == BACKSLASH && i + 1 < |s| {
        i := i + 1;
        var plain := Unletter(s[i]);
        if plain.Some? {
          res := res + [plain.value];
        } else if s[i] == LOWER_U {
          if i + 4 < |s| {
            var code := CodePoint(s[i + 1..i + 5]);
            if code.None? { return None; }
            res := res + [code.value];
            i := i + 4;
          } else {
            res := res + [BACKSLASH, LOWER_U];
          }
        } else {
          res := res + [BACKSLASH, s[i]];
        }
      } else {
        res := res + [s[i]];
      }
      i := i + 1;
    }
    UnescapeEnd(s[i..], res);
    r := Some(res);
  }

  lemma {:induction false} UnescapeEnd(rest: Bytes, res: Bytes)
    ensures rest == [] ==> Prefixed(res, Unescape(rest)) == Some(res)
  {
    assert res + [] == res;
  }

  lemma {:induction false} PrefixedNothing(r: Option<Bytes>)
    ensures Prefixed([], r) == r
  {
    if r.Some? { assert [] + r.value == r.value; }
  }

  /** One turn of the loop, in terms of what stands at the head of the unread text. */
  lemma {:induction false} UnescapeHead(s: Bytes, i: nat, res: Bytes)
    requires i < |s|
    ensures var h := Head(s[i..]);
            && (h.None? ==> Prefixed(res, Unescape(s[i..])) == None)
            && (h.Some? ==> (0 < h.value.1 && i + h.value.1 <= |s|
                             && Prefixed(res, Unescape(s[i..])) ==
                                Prefixed(res + h.value.0, Unescape(s[i + h.value.1..]))))
    ensures s[i] == BACKSLASH && i + 5 < |s| ==> s[i..][2..6] == s[i + 2..i + 6]
  {
    hide CodePoint;
    var h := Head(s[i..]);
    if h.Some? {
      var n := h.value.1;
      assert s[i..][n..] == s[i + n..];
      var rest := Unescape(s[i + n..]);
      if rest.Some? { Regroup(res, h.value.0, rest.value); }
    }
  }

  // -------------------------------------------------------------- round trip

  /** Text the escapes can carry: no control bytes but those with a letter. */
  predicate Safe(b: Byte) {
    b == BACKSPACE || b == FORM_FEED || b == NEW_LINE || b == CARRIAGE_RETURN || b == TAB || !IsCntrl(b)
  }

  ghost predicate JsonSafe(s: Bytes) {
    forall k :: 0 <= k < |s| ==> Safe(s[k])
  }

  /** `is_json_safe_text`. */
  method IsJsonSafeText(text: Bytes) returns (safe: bool)
    ensures safe <==> JsonSafe(text)
  {
    for k := 0 to |text|
      invariant forall j :: 0 <= j < k ==> Safe(text[j])
    {
      if !Safe(text[k]) { return false; }
    }
    return true;
  }

  lemma {:induction false} ReplacementIsRefused(rest: Bytes)
    ensures Head(Replacement() + rest) == None
  {
    var t := Replacement() + rest;
    var hex := [LOWER_F, LOWER_F, LOWER_F, LOWER_D];
    assert t[2..6] == hex;
    assert SkipSpace(hex) == hex;
    assert hex[1..] == [LOWER_F, LOWER_F, LOWER_D] && hex[1..][1..] == [LOWER_F, LOWER_D]
        && hex[1..][1..][1..] == [LOWER_D] && hex[1..][1..][1..][1..] == [];
    assert Digits(hex, 0) == Digits([LOWER_F, LOWER_F, LOWER_D], 15) == Digits([LOWER_F, LOWER_D], 255)
        == Digits([LOWER_D], 4095) == Some(65533);
  }

  /** What a byte was escaped to is read back as that byte, or refused. */
  lemma {:induction false} HeadOfEscaped(b: Byte, rest: Bytes)
    ensures Head(EscapeByte(b) + rest) == if Safe(b) then Some(([b], |EscapeByte(b)|)) else None
  {
    if Letter(b) == None && IsCntrl(b) { ReplacementIsRefused(rest); }
    hide CodePoint;
  }

  /** Unescaping undoes escaping exactly on safe text, and refuses all other. */
  lemma {:induction false} UnescapeUndoesEscape(s: Bytes)
    ensures Unescape(Escape(s)) == if JsonSafe(s) then Some(s) else None
    decreases |s|
  {
    if s != [] {
      var e, rest := EscapeByte(s[0]), Escape(s[1..]);
      HeadOfEscaped(s[0], rest);
      UnescapeUndoesEscape(s[1..]);
      hide Head, EscapeByte, Safe;
      assert (e + rest)[|e|..] == rest;
      assert s == [s[0]] + s[1..];
      if JsonSafe(s[1..]) && Safe(s[0]) {
        forall k | 0 <= k < |s| ensures Safe(s[k]) { if k > 0 { assert s[k] == s[1..][k - 1]; } }
      }
      if JsonSafe(s) {
        forall k | 0 <= k < |s| - 1 ensures Safe(s[1..][k]) { assert Safe(s[k + 1]); }
      }
    }
  }

  // ----------------------------------------------------------------- payload

  const MAX_PAYLOAD_BYTES := 8 * 1024 * 1024

  /** What the envelope is made from: captured standard output, and the handler's result object. */
  datatype Envelope = Envelope(capturedOut: Bytes, stdoutIsPayload: bool, fields: set<Bytes>)

  datatype Payload = Payload(text: Bytes, present: bool, encoded: bool, truncated: bool)

  /** The key `data`. */
  const DATA: Bytes := [0x84, 0x81, 0xA3, 0x81]

  method ResolvePayload(e: Envelope) returns (p: Payload)
    ensures p.present <==> e.capturedOut != [] && DATA !in e.fields && (e.stdoutIsPayload || e.fields == {})
    ensures p.truncated <==> p.present && |e.capturedOut| > MAX_PAYLOAD_BYTES
    ensures p.present ==> (p.encoded <==> !JsonSafe(KeptPart(e)))
    ensures p.present ==> Recovered(Escape(p.text), p.encoded) == Some(KeptPart(e))
    ensures !p.present ==> p.text == [] && !p.encoded
  {
    p := Payload([], false, false, false);
    if e.capturedOut == [] { return; }
    if DATA in e.fields { return; }
    if !e.stdoutIsPayload && e.fields != {} { return; }
    p := p.(present := true);
    if |e.capturedOut| > MAX_PAYLOAD_BYTES {
      p := p.(text := e.capturedOut[..MAX_PAYLOAD_BYTES], truncated := true);
    } else {
      p := p.(text := e.capturedOut);
    }
    RecoversText(KeptPart(e));
    hide Escape, Recovered, JsonSafe, Base64.Encode;
    var safe := IsJsonSafeText(p.text);
    if !safe {
      var b64 := Base64.EncodeBytes(p.text);
      p := p.(text := b64, encoded := true);
    }
  }

  /** At most the first 8 MiB of what was captured. */
  function KeptPart(e: Envelope): Bytes {
    if |e.capturedOut| > MAX_PAYLOAD_BYTES then e.capturedOut[..MAX_PAYLOAD_BYTES] else e.capturedOut
  }

  /** What a consumer makes of the string in the document: unescaped, and decoded if the envelope says so. */
  function Recovered(body: Bytes, encoded: bool): Option<Bytes> {
    match Unescape(body)
    case None => None
    case Some(text) =>
      if !encoded then Some(text)
      else match Base64.Decode(text) case Ok(bytes) => Some(bytes) case BadLength => None case BadCharacter => None
  }

  lemma {:induction false} RecoversText(kept: Bytes)
    ensures JsonSafe(kept) ==> Recovered(Escape(kept), false) == Some(kept)
    ensures Recovered(Escape(Base64.Encode(kept)), true) == Some(kept)
  {
    UnescapeUndoesEscape(kept);
    UnescapeUndoesEscape(Base64.Encode(kept));
    EncodeIsSafe(kept);
    Base64.DecodeUndoesEncode(kept);
    hide Escape, Unescape, JsonSafe, Base64.Encode, Base64.Decode;
  }

  lemma {:induction false} AlphabetIsSafe(n: Base64.Sextet)
    ensures Safe(Base64.Alphabet(n))
  {
  }

  lemma {:induction false} LettersAreSafe(q: Base64.Quad)
    ensures JsonSafe(Base64.Letters(q)) && Safe(Base64.PAD)
  {
    AlphabetIsSafe(q.c0);
    AlphabetIsSafe(q.c1);
    AlphabetIsSafe(q.c2);
    AlphabetIsSafe(q.c3);
    hide Base64.Alphabet;
  }

  lemma {:induction false} JoinedIsSafe(x: Bytes, y: Bytes)
    requires JsonSafe(x) && JsonSafe(y)
    ensures JsonSafe(x + y)
  {
    hide Safe;
  }

  lemma {:induction false} BlocksAreSafe(bs: Bytes)
    ensures var r := Blockwise.Run(Base64.EncodeBlock, 3, bs); r.Some? ==> JsonSafe(r.value)
    decreases |bs|
  {
    if |bs| >= 3 {
      BlocksAreSafe(bs[3..]);
      var first, rest := Base64.EncodeBlock(bs[..3]), Blockwise.Run(Base64.EncodeBlock, 3, bs[3..]);
      LettersAreSafe(Base64.Group(bs[..3][0], bs[..3][1], bs[..3][2]));
      hide JsonSafe, Base64.Letters, Base64.Group;
      if rest.Some? { JoinedIsSafe(first.value, rest.value); }
    } else {
      assert JsonSafe([]);
    }
  }

  lemma {:induction false} TailIsSafe(rest: Bytes)
    requires |rest| < 3
    ensures JsonSafe(Base64.EncodeTail(rest))
  {
    if |rest| > 0 {
      var q := Base64.Group(rest[0], if |rest| == 1 then 0 else rest[1], 0);
      LettersAreSafe(q);
      hide Base64.Letters, Base64.Group, Safe;
    }
  }

  /** Base64 text needs no escape. */
  lemma {:induction false} EncodeIsSafe(bs: Bytes)
    ensures JsonSafe(Base64.Encode(bs))
  {
    Base64.EncodeRuns(bs);
    BlocksAreSafe(bs);
    TailIsSafe(Blockwise.Rest(3, bs));
    hide JsonSafe, Blockwise.Run, Base64.EncodeTail;
    JoinedIsSafe(Blockwise.Run(Base64.EncodeBlock, 3, bs).value, Base64.EncodeTail(Blockwise.Rest(3, bs)));
  }

  // ------------------------------------------------------------------ the escapes

  /** The two-character escapes of section 7 of RFC 8259, both ways; the solidus is only read. */
  lemma {:induction false} EscapesByLetter()
    ensures Escape([QUOTE]) == [BACKSLASH, QUOTE] && Escape([BACKSLASH]) == [BACKSLASH, BACKSLASH]
    ensures Escape([BACKSPACE]) == [BACKSLASH, LOWER_B] && Escape([FORM_FEED]) == [BACKSLASH, LOWER_F]
    ensures Escape([NEW_LINE]) == [BACKSLASH, LOWER_N] && Escape([CARRIAGE_RETURN]) == [BACKSLASH, LOWER_R]
    ensures Escape([TAB]) == [BACKSLASH, LOWER_T] && Escape([SLASH]) == [SLASH]
    ensures Unescape([BACKSLASH, SLASH]) == Some([SLASH]) && Unescape([BACKSLASH, LOWER_B]) == Some([BACKSPACE])
    ensures Unescape([BACKSLASH, LOWER_N]) == Some([NEW_LINE]) && Unescape([BACKSLASH, LOWER_T]) == Some([TAB])
  {
    hide Escape, Unescape;
    forall b: Byte ensures Escape([b]) == EscapeByte(b) { OneEscaped(b); }
    forall c: Byte | Unletter(c).Some? ensures Unescape([BACKSLASH, c]) == Some([Unletter(c).value]) {
      OneUnescaped(c);
    }
  }

  lemma {:induction false} OneEscaped(b: Byte)
    ensures Escape([b]) == EscapeByte(b)
  {
    hide EscapeByte;
    assert [b][1..] == [] && EscapeByte(b) + [] == EscapeByte(b);
  }

  lemma {:induction false} OneUnescaped(c: Byte)
    requires Unletter(c).Some?
    ensures Unescape([BACKSLASH, c]) == Some([Unletter(c).value])
  {
    hide Unletter;
    assert [BACKSLASH, c][2..] == [] && [Unletter(c).value] + [] == [Unletter(c).value];
  }

  /** A `\\u` escape with two zeros in front means the byte its other two digits make, unless that is a control. */
  lemma {:induction false} EscapesByNumber(v: Byte, hi: Byte, lo: Byte)
    requires HexValue(hi) == Some(v / 16) && HexValue(lo) == Some(v % 16)
    ensures Unescape([BACKSLASH, LOWER_U, DIGIT_ZERO, DIGIT_ZERO, hi, lo]) == if IsCntrl(v) then None else Some([v])
  {
    var s, hex := [BACKSLASH, LOWER_U, DIGIT_ZERO, DIGIT_ZERO, hi, lo], [DIGIT_ZERO, DIGIT_ZERO, hi, lo];
    assert s[2..6] == hex && s[6..] == [];
    NumberOf(v, hi, lo);
    assert [v] + [] == [v];
    hide HexNumber;
  }

  lemma {:induction false} NumberOf(v: Byte, hi: Byte, lo: Byte)
    requires HexValue(hi) == Some(v / 16) && HexValue(lo) == Some(v % 16)
    ensures HexNumber([DIGIT_ZERO, DIGIT_ZERO, hi, lo]) == Some(v)
  {
    var hex := [DIGIT_ZERO, DIGIT_ZERO, hi, lo];
    assert SkipSpace(hex) == hex;
    DigitsStep(hex, 0);
    DigitsStep(hex[1..], 0);
    DigitsStep([hi, lo], 0);
    DigitsStep([lo], v / 16);
    assert hex[1..][1..] == [hi, lo] && [hi, lo][1..] == [lo] && [lo][1..] == [];
    hide Digits;
    assert v == 16 * (v / 16) + v % 16;
  }

  lemma {:induction false} DigitsStep(s: Bytes, n: nat)
    requires s != [] && HexValue(s[0]).Some?
    ensures Digits(s, n) == Digits(s[1..], 16 * n + HexValue(s[0]).value)
    ensures Digits([], n) == Some(n)
  {
    hide HexValue;
  }

  /** Hexadecimal digits by their codes: the ten digits, and six letters, small or capital. */
  lemma {:induction false} HexDigitsByCode(k: nat)
    ensures k < 10 ==> HexValue(0xF0 + k) == Some(k)
    ensures k < 6 ==> HexValue(0x81 + k) == Some(10 + k) && HexValue(0xC1 + k) == Some(10 + k)
  {
  }

  /** The C library reads more than four digits: a blank or plus sign in front, or a prefix before two digits. */
  lemma {:induction false} NumbersAreLenient(front: Byte, x: Byte, v: Byte, hi: Byte, lo: Byte)
    requires HexValue(hi) == Some(v / 16) && HexValue(lo) == Some(v % 16)
    requires front == PLUS || front == BLANK || front == TAB || front == NEW_LINE
    requires x == LOWER_X || x == UPPER_X
    ensures HexNumber([front, DIGIT_ZERO, hi, lo]) == Some(v) && HexNumber([DIGIT_ZERO, x, hi, lo]) == Some(v)
  {
    DigitsStep([DIGIT_ZERO, hi, lo], 0);
    DigitsStep([hi, lo], 0);
    DigitsStep([lo], v / 16);
    assert v == 16 * (v / 16) + v % 16;
    assert [DIGIT_ZERO, hi, lo][1..] == [hi, lo] && [hi, lo][1..] == [lo] && [lo][1..] == [];
    var a, b := [front, DIGIT_ZERO, hi, lo], [DIGIT_ZERO, x, hi, lo];
    assert a[1..] == [DIGIT_ZERO, hi, lo] && b[2..] == [hi, lo] && SkipSpace(b) == b;
    assert SkipSpace([DIGIT_ZERO, hi, lo]) == [DIGIT_ZERO, hi, lo];
    assert HexValue(x) == None;
    hide Digits;
  }
}
