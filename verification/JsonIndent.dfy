/** Pretty printing of JSON text by inserting line breaks and blanks outside string literals. */
module JsonIndent {

  import opened Native

  // ------------------------------------------------------------ lexical state

  /** Where in the text the reader is: inside a string literal or not, and just after a backslash in one. */
  datatype Lex = Lex(inString: bool, escapeNext: bool)

  const OUTSIDE := Lex(false, false)

  function After(st: Lex, ch: char): Lex {
    if st.escapeNext then Lex(st.inString, false)
    else if ch == '\\' && st.inString then Lex(true, true)
    else if ch == '"' then Lex(!st.inString, false)
    else st
  }

  function AfterAll(s: string): Lex {
    if s == [] then OUTSIDE else After(AfterAll(s[..|s| - 1]), s[|s| - 1])
  }

  /** The characters a test keeps, given where each stands. */
  function Filter(keep: (Lex, char) -> bool, s: string): string {
    if s == [] then [] else
      var before, last := s[..|s| - 1], s[|s| - 1];
      Filter(keep, before) + if keep(AfterAll(before), last) then [last] else []
  }

  /** All but blanks and line breaks outside string literals. */
  function NotLayout(): (Lex, char) -> bool {
    (st: Lex, ch: char) => st.inString || (ch != ' ' && ch != '\n')
  }

  /** What stands inside string literals, their closing quotes included. */
  function Literal(): (Lex, char) -> bool {
    (st: Lex, ch: char) => st.inString
  }

  // ----------------------------------------------------------------- brackets

  predicate Opens(ch: char) { ch == '{' || ch == '[' }
  predicate Closes(ch: char) { ch == '}' || ch == ']' }

  /** Brackets open and not yet closed, outside string literals. */
  function Depth(s: string): int {
    if s == [] then 0 else
      var before, ch := s[..|s| - 1], s[|s| - 1];
      Depth(before)
      + if AfterAll(before).inString then 0 else if Opens(ch) then 1 else if Closes(ch) then -1 else 0
  }

  ghost predicate NeverNegative(s: string) {
    forall k :: 0 <= k <= |s| ==> Depth(s[..k]) >= 0
  }

  // ------------------------------------------------------------------ printer

  /** Text so far and indent level, or the exception for a negative count of blanks. */
  datatype Pretty = Thrown | Pretty(out: string, level: int)

  function Blanks(n: nat): string {
    if n == 0 then [] else Blanks(n - 1) + [' ']
  }

  /** A line break and the indentation of a level; a negative level cannot be indented. */
  function Break(level: int, spaces: nat): Option<string> {
    if level * spaces < 0 then None else Some("\n" + Blanks(level * spaces))
  }

  /** What one character adds. */
  function Put(p: Pretty, st: Lex, ch: char, spaces: nat): Pretty {
    if p.Thrown? then Thrown
    else if st.escapeNext || st.inString then Pretty(p.out + [ch], p.level)
    else if Opens(ch) then
      match Break(p.level + 1, spaces)
      case None => Thrown
      case Some(b) => Pretty(p.out + [ch] + b, p.level + 1)
    else if Closes(ch) then
      match Break(p.level - 1, spaces)
      case None => Thrown
      case Some(b) => Pretty(p.out + b + [ch], p.level - 1)
    else if ch == ',' then
      match Break(p.level, spaces)
      case None => Thrown
      case Some(b) => Pretty(p.out + [ch] + b, p.level)
    else if ch == ':' then Pretty(p.out + [ch] + " ", p.level)
    else Pretty(p.out + [ch], p.level)
  }

  function Indented(s: string, spaces: nat): Pretty {
    if s == [] then Pretty([], 0) else
      Put(Indented(s[..|s| - 1], spaces), AfterAll(s[..|s| - 1]), s[|s| - 1], spaces)
  }

  /** The printing loop. */
  method AddJsonIndentation(text: string, spaces: nat) returns (r: Option<string>)
    ensures r == match Indented(text, spaces) case Thrown => None case Pretty(out, _) => Some(out)
  {
    hide Indented, AfterAll;
    var result := "";
    var level := 0;
    var inString, escapeNext := false, false;
    Start(spaces);
    for k := 0 to |text|
      invariant Lex(inString, escapeNext) == AfterAll(text[..k])
      invariant Pretty(result, level) == Indented(text[..k], spaces)
      invariant escapeNext ==> inString
    {
      var ch := text[k];
      Next(text, k, spaces);
      ghost var p := Pretty(result, level);
      if escapeNext {
        result := result + [ch];
        escapeNext := false;
      } else if ch == '\\' && inString {
        result := result + [ch];
        escapeNext := true;
      } else if ch == '"' {
        result := result + [ch];
        inString := !inString;
      } else if !inString {
        if Opens(ch) {
          result := result + [ch];
          level := level + 1;
          var b := Break(level, spaces);
          if b == None { Stays(text, k + 1, spaces); return None; }
          result := result + b.value;
        } else if Closes(ch) {
          level := level - 1;
          var b := Break(level, spaces);
          if b == None { Stays(text, k + 1, spaces); return None; }
          result := result + b.value + [ch];
        } else if ch == ',' {
          var b := Break(level, spaces);
          if b == None { Stays(text, k + 1, spaces); return None; }
          result := result + [ch] + b.value;
        } else if ch == ':' {
          result := result + [ch] + " ";
        } else {
          result := result + [ch];
        }
      } else {
        result := result + [ch];
      }
    }
    assert text[..|text|] == text;
    r := Some(result);
  }

  lemma {:induction false} Start(spaces: nat)
    ensures Indented([], spaces) == Pretty([], 0) && AfterAll([]) == OUTSIDE
  {
  }

  lemma {:induction false} Next(s: string, k: nat, spaces: nat)
    requires k < |s|
    ensures AfterAll(s[..k + 1]) == After(AfterAll(s[..k]), s[k])
    ensures Indented(s[..k + 1], spaces) == Put(Indented(s[..k], spaces), AfterAll(s[..k]), s[k], spaces)
  {
    assert s[..k + 1][..k] == s[..k];
  }

  lemma {:induction false} Stays(s: string, k: nat, spaces: nat)
    requires k <= |s| && Indented(s[..k], spaces) == Thrown
    ensures Indented(s, spaces) == Thrown
    decreases |s| - k
  {
    if k == |s| {
      assert s[..k] == s;
    } else {
      Next(s, k, spaces);
      Stays(s, k + 1, spaces);
    }
  }

  // ------------------------------------------------- layout is all that changes

  /** A test that drops the layout characters the printer inserts. */
  ghost predicate DropsLayout(keep: (Lex, char) -> bool) {
    !keep(OUTSIDE, ' ') && !keep(OUTSIDE, '\n')
  }

  lemma {:induction false} FilterNext(keep: (Lex, char) -> bool, s: string, ch: char)
    ensures AfterAll(s + [ch]) == After(AfterAll(s), ch)
    ensures Filter(keep, s + [ch]) == Filter(keep, s) + if keep(AfterAll(s), ch) then [ch] else []
  {
    assert (s + [ch])[..|s|] == s;
  }

  /** Blanks outside a literal are dropped and change nothing. */
  lemma {:induction false} FilterBlanks(keep: (Lex, char) -> bool, s: string, n: nat)
    requires DropsLayout(keep) && AfterAll(s) == OUTSIDE
    ensures AfterAll(s + Blanks(n)) == OUTSIDE && Filter(keep, s + Blanks(n)) == Filter(keep, s)
  {
    hide Filter, AfterAll;
    if n == 0 {
      assert s + Blanks(0) == s;
    } else {
      FilterBlanks(keep, s, n - 1);
      FilterNext(keep, s + Blanks(n - 1), ' ');
      assert s + Blanks(n) == s + Blanks(n - 1) + [' '];
    }
  }

  lemma {:induction false} FilterBreak(keep: (Lex, char) -> bool, s: string, level: int, spaces: nat)
    requires DropsLayout(keep) && AfterAll(s) == OUTSIDE && Break(level, spaces).Some?
    ensures var b := Break(level, spaces).value;
            AfterAll(s + b) == OUTSIDE && Filter(keep, s + b) == Filter(keep, s)
  {
    hide Filter, AfterAll;
    FilterNext(keep, s, '\n');
    FilterBlanks(keep, s + ['\n'], level * spaces);
    assert s + ("\n" + Blanks(level * spaces)) == s + ['\n'] + Blanks(level * spaces);
  }

  /** A state that can occur. */
  ghost predicate Sensible(st: Lex) {
    st.escapeNext ==> st.inString
  }

  /** One character of input, with the layout it brings, is one character to the filter. */
  lemma {:induction false} PutFiltered(keep: (Lex, char) -> bool, p: Pretty, st: Lex, ch: char, spaces: nat)
    requires DropsLayout(keep) && Sensible(st) && p.Pretty? && AfterAll(p.out) == st
    requires Put(p, st, ch, spaces).Pretty?
    ensures
      var q := Put(p, st, ch, spaces);
      && AfterAll(q.out) == After(st, ch)
      && Filter(keep, q.out) == Filter(keep, p.out) + if keep(st, ch) then [ch] else []
  {
    hide Filter, AfterAll;
    FilterNext(keep, p.out, ch);
    if !st.inString {
      if Opens(ch) {
        FilterBreak(keep, p.out + [ch], p.level + 1, spaces);
      } else if Closes(ch) {
        FilterBreak(keep, p.out, p.level - 1, spaces);
        FilterNext(keep, p.out + Break(p.level - 1, spaces).value, ch);
      } else if ch == ',' {
        FilterBreak(keep, p.out + [ch], p.level, spaces);
      } else if ch == ':' {
        FilterNext(keep, p.out + [ch], ' ');
        assert p.out + [ch] + " " == p.out + [ch] + [' '];
      }
    }
  }

  /** For every test that drops layout, printing changes nothing it can see. */
  lemma {:induction false} PrintingFiltered(keep: (Lex, char) -> bool, s: string, spaces: nat)
    requires DropsLayout(keep) && Indented(s, spaces).Pretty?
    ensures var out := Indented(s, spaces).out;
            AfterAll(out) == AfterAll(s) && Filter(keep, out) == Filter(keep, s) && Sensible(AfterAll(s))
  {
    if s != [] {
      var before, ch := s[..|s| - 1], s[|s| - 1];
      assert Indented(before, spaces).Pretty?;
      PrintingFiltered(keep, before, spaces);
      PutFiltered(keep, Indented(before, spaces), AfterAll(before), ch, spaces);
    }
  }

  /** No layout outside string literals. */
  ghost predicate Compact(s: string) {
    forall k :: 0 <= k < |s| ==> NotLayout()(AfterAll(s[..k]), s[k])
  }

  lemma {:induction false} CompactIsFiltered(s: string)
    requires Compact(s)
    ensures Filter(NotLayout(), s) == s
  {
    if s != [] {
      var before := s[..|s| - 1];
      forall k | 0 <= k < |before| ensures NotLayout()(AfterAll(before[..k]), before[k]) {
        assert before[..k] == s[..k];
      }
      CompactIsFiltered(before);
      assert s[..|s| - 1] == before;
      assert NotLayout()(AfterAll(s[..|s| - 1]), s[|s| - 1]);
      assert s == before + [s[|s| - 1]];
    }
  }

  // ------------------------------------------------------------------ levels

  /** The level is the bracket depth, and printing throws exactly when a negative depth would have to be indented. */
  lemma {:induction false} LevelIsDepth(s: string, spaces: nat)
    ensures Indented(s, spaces).Pretty? <==> spaces == 0 || NeverNegative(s)
    ensures Indented(s, spaces).Pretty? ==> Indented(s, spaces).level == Depth(s)
    ensures Sensible(AfterAll(s))
  {
    if s == [] {
      assert forall k :: 0 <= k <= |s| ==> s[..k] == [];
    } else {
      var before, ch := s[..|s| - 1], s[|s| - 1];
      LevelIsDepth(before, spaces);
      PrefixDepths(s);
      assert spaces > 0 && Indented(before, spaces).Pretty? ==> Depth(before) >= 0 by {
        if NeverNegative(before) { assert before[..|before|] == before; }
      }
      PutLevel(Indented(before, spaces), AfterAll(before), ch, spaces);
    }
  }

  lemma {:induction false} PrefixDepths(s: string)
    requires s != []
    ensures NeverNegative(s) <==> NeverNegative(s[..|s| - 1]) && Depth(s) >= 0
  {
    hide Depth;
    var before := s[..|s| - 1];
    assert forall k :: 0 <= k <= |before| ==> before[..k] == s[..k];
    assert s[..|s|] == s;
    if NeverNegative(s) {
      forall k | 0 <= k <= |before| ensures Depth(before[..k]) >= 0 { assert Depth(s[..k]) >= 0; }
      assert Depth(s[..|s|]) >= 0;
    }
    if NeverNegative(before) && Depth(s) >= 0 {
      forall k | 0 <= k <= |s| ensures Depth(s[..k]) >= 0 {
        if k <= |before| { assert Depth(before[..k]) >= 0; }
      }
    }
  }

  lemma {:induction false} PutLevel(p: Pretty, st: Lex, ch: char, spaces: nat)
    requires Sensible(st) && (p.Pretty? ==> spaces == 0 || p.level >= 0)
    ensures
      var change := if st.inString then 0 else if Opens(ch) then 1 else if Closes(ch) then -1 else 0;
      var q := Put(p, st, ch, spaces);
      && (q.Pretty? <==> p.Pretty? && (spaces == 0 || p.level + change >= 0))
      && (q.Pretty? ==> q.level == p.level + change)
  {
    if p.Pretty? {
      Sign(p.level + 1, spaces);
      Sign(p.level - 1, spaces);
      Sign(p.level, spaces);
      hide Blanks;
    }
  }

  lemma {:induction false} Sign(level: int, spaces: nat)
    ensures level * spaces < 0 <==> level < 0 && spaces > 0
  {
    if level >= 0 { assert level * spaces >= 0; }
    else if spaces > 0 { assert level * spaces <= 0 - spaces as int; }
  }

  // -------------------------------------------------------------- main result

  /**
   * Compact text whose brackets never close too early is printed; taking the layout out again gives it
   * back, the string literals are untouched, and the final level is zero exactly if the brackets balance.
   */
  lemma {:induction false} PrettyPrintingPreserves(s: string, spaces: nat)
    requires Compact(s) && (spaces == 0 || NeverNegative(s))
    ensures
      var p := Indented(s, spaces);
      && p.Pretty? && p.level == Depth(s)
      && Filter(NotLayout(), p.out) == s
      && Filter(Literal(), p.out) == Filter(Literal(), s)
  {
    LevelIsDepth(s, spaces);
    PrintingFiltered(NotLayout(), s, spaces);
    PrintingFiltered(Literal(), s, spaces);
    CompactIsFiltered(s);
  }

  // ------------------------------------------------------------- where layout stands

  /** A line break and so many blanks. */
  function Line(n: int): string {
    ['\n'] + seq(if n < 0 then 0 else n, _ => ' ')
  }

  /** What one character of the text becomes, by its place and its depth alone. */
  function PieceAt(s: string, k: nat, spaces: nat): string
    requires k < |s|
  {
    var ch, depth := s[k], Depth(s[..k]);
    if AfterAll(s[..k]).inString then [ch]
    else if ch == '{' || ch == '[' then [ch] + Line((depth + 1) * spaces)
    else if ch == '}' || ch == ']' then Line((depth - 1) * spaces) + [ch]
    else if ch == ',' then [ch] + Line(depth * spaces)
    else if ch == ':' then [ch, ' ']
    else [ch]
  }

  function Pieces(s: string, n: nat, spaces: nat): string
    requires n <= |s|
  {
    if n == 0 then [] else Pieces(s, n - 1, spaces) + PieceAt(s, n - 1, spaces)
  }

  lemma {:induction false} BlanksAreBlank(n: nat)
    ensures Blanks(n) == seq(n, _ => ' ')
  {
    if n > 0 { BlanksAreBlank(n - 1); }
  }

  predicate IsLine(level: int, spaces: nat) {
    Break(level, spaces).Some? ==> Break(level, spaces).value == Line(level * spaces)
  }

  lemma {:induction false} BreakIsLine(level: int, spaces: nat)
    ensures IsLine(level, spaces)
  {
    if level * spaces >= 0 {
      BlanksAreBlank(level * spaces);
      assert "\n" == ['\n'];
    }
  }

  /**
   * Outside string literals a line break with as many blanks as the depth asks for follows each opening
   * bracket and each comma and precedes each closing bracket, one blank follows each colon, and nothing
   * else is put in.
   */
  lemma {:induction false} LayoutIsExact(s: string, spaces: nat)
    requires Indented(s, spaces).Pretty?
    ensures Indented(s, spaces).out == Pieces(s, |s|, spaces)
    decreases |s|
  {
    hide Break, Line, IsLine, AfterAll, Depth, Indented, Put, PieceAt;
    IndentedUnfolds(s, spaces);
    if s != [] {
      var before, ch := s[..|s| - 1], s[|s| - 1];
      LayoutIsExact(before, spaces);
      LevelIsDepth(before, spaces);
      SamePieces(s, |s| - 1, spaces);
      var p, level := Indented(before, spaces), Depth(before);
      BreakIsLine(level + 1, spaces);
      BreakIsLine(level - 1, spaces);
      BreakIsLine(level, spaces);
      AddsPiece(p, AfterAll(before), s, spaces);
    }
  }

  lemma {:induction false} IndentedUnfolds(s: string, spaces: nat)
    ensures if s == [] then Indented(s, spaces) == Pretty([], 0)
            else
              var before := s[..|s| - 1];
              Indented(s, spaces) == Put(Indented(before, spaces), AfterAll(before), s[|s| - 1], spaces)
              && (Indented(s, spaces).Pretty? ==> Indented(before, spaces).Pretty?)
  {
    hide AfterAll, Break;
  }

  lemma {:induction false} SamePieces(s: string, n: nat, spaces: nat)
    requires n <= |s|
    ensures Pieces(s[..n], n, spaces) == Pieces(s, n, spaces)
    decreases n
  {
    hide PieceAt;
    if n > 0 {
      SamePieces(s, n - 1, spaces);
      SamePieces(s[..n], n - 1, spaces);
      assert s[..n][..n - 1] == s[..n - 1];
      SamePiece(s, n - 1, n, spaces);
    }
  }

  lemma {:induction false} SamePiece(s: string, k: nat, n: nat, spaces: nat)
    requires k < n <= |s|
    ensures PieceAt(s[..n], k, spaces) == PieceAt(s, k, spaces)
  {
    assert s[..n][..k] == s[..k];
  }

  lemma {:induction false} AddsPiece(p: Pretty, st: Lex, s: string, spaces: nat)
    requires s != [] && st == AfterAll(s[..|s| - 1]) && Sensible(st) && p.Pretty? && p.level == Depth(s[..|s| - 1])
    requires IsLine(p.level + 1, spaces) && IsLine(p.level - 1, spaces) && IsLine(p.level, spaces)
    requires Put(p, st, s[|s| - 1], spaces).Pretty?
    ensures Put(p, st, s[|s| - 1], spaces).out == p.out + PieceAt(s, |s| - 1, spaces)
  {
    hide Break, Line, AfterAll, Depth;
    var level, ch := p.level, s[|s| - 1];
    var out := p.out;
    assert forall b: string :: out + [ch] + b == out + ([ch] + b) && out + b + [ch] == out + (b + [ch]);
    assert [ch] + " " == [ch, ' '];
  }

  /** What may stand between quotes: no quote that is not escaped, and no backslash without what it escapes. */
  predicate LiteralBody(body: string) {
    if body == [] then true
    else if body[0] == '\\' then |body| > 1 && LiteralBody(body[2..])
    else body[0] != '"' && LiteralBody(body[1..])
  }

  lemma {:induction false} BodyStaysInside(s: string, body: string, spaces: nat)
    requires AfterAll(s) == Lex(true, false) && LiteralBody(body) && Indented(s, spaces).Pretty?
    ensures AfterAll(s + body) == Lex(true, false)
    ensures Indented(s + body, spaces) == Pretty(Indented(s, spaces).out + body, Indented(s, spaces).level)
    decreases |body|
  {
    hide AfterAll, Indented;
    if body == [] {
      assert s + body == s && Indented(s, spaces).out + [] == Indented(s, spaces).out;
    } else {
      var n := if body[0] == '\\' then 2 else 1;
      OneInside(s, body[0], spaces);
      if n == 2 { OneInside(s + [body[0]], body[1], spaces); }
      var t := if n == 2 then s + [body[0]] + [body[1]] else s + [body[0]];
      BodyStaysInside(t, body[n..], spaces);
      assert t + body[n..] == s + body;
      var out := Indented(s, spaces).out;
      assert (if n == 2 then out + [body[0]] + [body[1]] else out + [body[0]]) + body[n..] == out + body;
    }
  }

  lemma {:induction false} OneInside(s: string, ch: char, spaces: nat)
    requires AfterAll(s).inString && Indented(s, spaces).Pretty?
    ensures Indented(s + [ch], spaces) == Pretty(Indented(s, spaces).out + [ch], Indented(s, spaces).level)
    ensures AfterAll(s + [ch]) ==
            if AfterAll(s).escapeNext then Lex(true, false)
            else if ch == '\\' then Lex(true, true) else if ch == '"' then OUTSIDE else Lex(true, false)
  {
    assert (s + [ch])[..|s|] == s;
  }

  /** A string literal, escaped quotes and all, is printed as it stands, and layout goes on behind it. */
  lemma {:induction false} LiteralsStand(s: string, body: string, spaces: nat)
    requires AfterAll(s) == OUTSIDE && LiteralBody(body) && Indented(s, spaces).Pretty?
    ensures var t := s + ['"'] + body + ['"'];
            AfterAll(t) == OUTSIDE
            && Indented(t, spaces)
               == Pretty(Indented(s, spaces).out + (['"'] + body + ['"']), Indented(s, spaces).level)
  {
    hide AfterAll, Indented;
    OpensLiteral(s, spaces);
    BodyStaysInside(s + ['"'], body, spaces);
    OneInside(s + ['"'] + body, '"', spaces);
    var out := Indented(s, spaces).out;
    assert out + ['"'] + body + ['"'] == out + (['"'] + body + ['"']);
  }

  lemma {:induction false} OpensLiteral(s: string, spaces: nat)
    requires AfterAll(s) == OUTSIDE && Indented(s, spaces).Pretty?
    ensures AfterAll(s + ['"']) == Lex(true, false)
    ensures Indented(s + ['"'], spaces) == Pretty(Indented(s, spaces).out + ['"'], Indented(s, spaces).level)
  {
    assert (s + ['"'])[..|s|] == s;
  }
}
