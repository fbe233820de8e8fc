/**
 * What words, flags and values mean to a command, said of the tokens themselves: which subcommand a
 * word leads to, which tokens an option takes, and what value they give it.
 */
module CommandMeaning {
  import opened Native
  import Lexer
  import opened Commands
  import opened CommandLaws
  import CommandTermination
  import CommandValues

  // ---------------------------------------------------------------- subcommands

  ghost predicate FirstNamed(subs: seq<Command>, word: string, k: nat) {
    k < |subs| && subs[k].name == word && forall j :: 0 <= j < k ==> subs[j].name != word
  }

  ghost predicate Unnamed(subs: seq<Command>, word: string) {
    forall k :: 0 <= k < |subs| ==> subs[k].name != word
  }

  ghost predicate SharedAlias(subs: seq<Command>, word: string) {
    exists i, j :: 0 <= i < j < |subs| && word in subs[i].aliases && word in subs[j].aliases
  }

  ghost predicate NobodyAnswers(subs: seq<Command>, word: string) {
    Unnamed(subs, word) && forall j :: 0 <= j < |subs| ==> word !in subs[j].aliases
  }

  lemma {:induction false} NamesAreFound(subs: seq<Command>, word: string)
    ensures forall k: nat :: FirstNamed(subs, word, k) ==> ByName(subs, word) == Found(subs[k])
    ensures ByName(subs, word).Found? || Unnamed(subs, word)
    ensures Unnamed(subs, word) ==> ByName(subs, word) == Missing
    decreases |subs|
  {
    if subs != [] {
      var more := subs[1..];
      assert forall j :: 1 <= j < |subs| ==> subs[j] == more[j - 1];
      assert forall j :: 0 <= j < |more| ==> more[j] == subs[j + 1];
      NamesAreFound(more, word);
      forall k: nat | FirstNamed(subs, word, k) ensures ByName(subs, word) == Found(subs[k]) {
        if k > 0 { assert FirstNamed(more, word, k - 1); }
      }
    }
  }

  lemma {:induction false} AliasesAreFound(subs: seq<Command>, word: string)
    ensures forall k: nat :: OnlyAlias(subs, word, k) ==> ByAlias(subs, word) == Found(subs[k])
    ensures ByAlias(subs, word).Found? ==> exists k: nat :: OnlyAlias(subs, word, k)
    ensures ByAlias(subs, word).Ambiguous? <==> SharedAlias(subs, word)
    ensures ByAlias(subs, word).Missing? <==> forall j :: 0 <= j < |subs| ==> word !in subs[j].aliases
  {
    hide ByAlias;
    NoAlias(subs, word);
    forall k: nat | k < |subs| ensures OnlyAlias(subs, word, k) ==> ByAlias(subs, word) == Found(subs[k]) {
      AliasesFindOne(subs, word, k);
    }
    if subs != [] { AliasesFindOne(subs, word, 0); }
    if ByAlias(subs, word).Ambiguous? {
      var i :| 0 <= i < |subs| && word in subs[i].aliases;
      assert !OnlyAlias(subs, word, i);
      var j :| 0 <= j < |subs| && j != i && word in subs[j].aliases;
    }
  }

  /**
   * A name finds the first command that bears it, whatever aliases say. A word nobody is named finds
   * the one command that has it as an alias, is refused if several have it, and else is no command.
   */
  lemma {:induction false} SubcommandMeaning(subs: seq<Command>, word: string)
    ensures forall k: nat :: FirstNamed(subs, word, k) ==> FindSubcommand(subs, word) == Found(subs[k])
    ensures Unnamed(subs, word) ==>
              forall k: nat :: OnlyAlias(subs, word, k) ==> FindSubcommand(subs, word) == Found(subs[k])
    ensures FindSubcommand(subs, word).Ambiguous? <==> Unnamed(subs, word) && SharedAlias(subs, word)
    ensures FindSubcommand(subs, word).Missing? <==> NobodyAnswers(subs, word)
    ensures FindSubcommand(subs, word).Found? && Unnamed(subs, word) ==> exists k: nat :: OnlyAlias(subs, word, k)
  {
    hide ByName, ByAlias, FirstNamed, OnlyAlias;
    NamesAreFound(subs, word);
    AliasesAreFound(subs, word);
  }

  /** A word that names a subcommand, standing first, hands the parse over to that subcommand. */
  lemma {:induction false} NameEnters(c: Command, k: nat, ts: seq<Token>)
    requires k < |c.subs| && FirstNamed(c.subs, c.subs[k].name, k)
    ensures Land(c, [Lexer.Id(c.subs[k].name)] + ts) == Land(c.subs[k], ts)
  {
    hide FindSubcommand, Land;
    SubcommandMeaning(c.subs, c.subs[k].name);
    WordEnters(c, c.subs[k].name, ts);
  }

  /** So does an alias that only one subcommand has and none is named. */
  lemma {:induction false} AliasEnters(c: Command, k: nat, word: string, ts: seq<Token>)
    requires Unnamed(c.subs, word) && OnlyAlias(c.subs, word, k)
    ensures Land(c, [Lexer.Id(word)] + ts) == Land(c.subs[k], ts)
  {
    hide FindSubcommand, Land;
    SubcommandMeaning(c.subs, word);
    WordEnters(c, word, ts);
  }

  lemma {:induction false} WordEnters(c: Command, word: string, ts: seq<Token>)
    requires FindSubcommand(c.subs, word).Found?
    ensures Land(c, [Lexer.Id(word)] + ts) == Land(FindSubcommand(c.subs, word).command, ts)
  {
    hide FindSubcommand, Land;
    assert [word][1..] == [] && CommandTermination.Ids([]) == [];
    assert CommandTermination.Ids([word]) == [Lexer.Id(word)] + [] == [Lexer.Id(word)];
    CommandTermination.WordsLead(c, [word], ts);
  }

  /** A word that is no subcommand stops a pure group, and an alias of several stops every command. */
  lemma {:induction false} WordRefused(c: Command, word: string, ts: seq<Token>, pos: nat)
    ensures var step := NextItem(c, [Lexer.Id(word)] + ts, pos);
            && (Unnamed(c.subs, word) && SharedAlias(c.subs, word) ==> step == Stops(Fails(AmbiguousAlias(word))))
            && (NobodyAnswers(c.subs, word) && c.subs != [] && !c.hasHandler && pos == 0 ==>
                  step == Stops(Fails(UnknownCommand(word))))
  {
    hide FindSubcommand, PositionalsOf, ValueOf, RunOf;
    SubcommandMeaning(c.subs, word);
  }

  // ---------------------------------------------------------------------- flags

  /** An alias answers to a flag exactly if it spells it: one dash and one letter, or two dashes and a word. */
  lemma {:induction false} AliasSpellsFlag(alias: string, name: string, short: bool)
    ensures AliasMatches(alias, name, short) <==>
            if short then |name| == 1 && alias == "-" + name else name != "" && alias == "--" + name
  {
    if AliasMatches(alias, name, short) {
      if short { assert alias == [alias[0]] + alias[1..]; } else { assert alias == alias[..2] + alias[2..]; }
    }
  }

  // --------------------------------------------------------------------- values

  /** Tokens a switch takes as its value. */
  predicate SwitchWord(t: Token) {
    t.True? || t.False? || t.Id? || t.StrLit?
  }

  /** Tokens an option takes as a value. */
  predicate ValueToken(t: Token) {
    SwitchWord(t) || t.IntLit? || t.FloatLit? || t.Times?
  }

  /** The text a value token stands for: what it is printed as, a string without quotes and escapes. */
  function Text(t: Token): string {
    match t
    case StrLit(raw) => Lexer.StrValue(raw)
    case Times => "*"
    case _ => Lexer.Print(t)
  }

  /**
   * A switch is on exactly for the text `true`. Other options get the text, except that a single
   * value that may stay a number is one.
   */
  lemma {:induction false} ValueMeaning(t: Token, coerce: bool)
    ensures ValueOf(t, Flag, coerce) == if SwitchWord(t) then BoolValue(Text(t) == "true") else NoValue
    ensures ValueOf(t, Multiple, coerce) == if ValueToken(t) then StringValue(Text(t)) else NoValue
    ensures ValueOf(t, Single, true) == if ValueToken(t) then StringValue(Text(t)) else NoValue
    ensures ValueOf(t, Single, false) ==
            if t.IntLit? then IntValue(t.value) else if t.FloatLit? then FloatValue(t.text)
            else if ValueToken(t) then StringValue(Text(t)) else NoValue
    ensures IsText(t) <==> ValueToken(t)
    ensures ValueToken(t) ==> TextOf(t) == Text(t)
  {
    assert "false" != "true" by { assert "false"[0] != "true"[0]; }
  }

  /** The values an option may be given, and what may follow them. */
  predicate Fits(arg: Argument, vs: seq<Token>, rest: seq<Token>) {
    if arg.isJson then vs == []
    else
      match arg.kind
      case Flag => (vs == [] && (rest == [] || !SwitchWord(rest[0]))) || (|vs| == 1 && SwitchWord(vs[0]))
      case Single => |vs| == 1 && ValueToken(vs[0])
      case Multiple =>
        vs != [] && (forall k :: 0 <= k < |vs| ==> ValueToken(vs[k])) && (rest == [] || !ValueToken(rest[0]))
  }

  /** The flag of an option: found by it, and no bundle. */
  ghost predicate FlagOf(c: Command, flag: Token, arg: Argument) {
    && IsFlag(flag) && (flag.FlagShort? ==> |flag.name| <= 1)
    && FindKeyword(c.args, flag.name, flag.FlagShort?) == Some(arg) && !arg.isHelp
  }

  lemma {:induction false} RunIs(vs: seq<Token>, rest: seq<Token>)
    requires forall k :: 0 <= k < |vs| ==> ValueToken(vs[k])
    requires rest == [] || !ValueToken(rest[0])
    ensures RunOf(vs + rest) == vs
    decreases |vs|
  {
    hide ValueOf, IsText;
    if vs == [] {
      assert vs + rest == rest;
      if rest != [] { ValueMeaning(rest[0], false); }
    } else {
      assert (vs + rest)[1..] == vs[1..] + rest;
      ValueMeaning(vs[0], false);
      RunIs(vs[1..], rest);
    }
  }

  /** An option takes its flag and the values that fit it. */
  lemma {:induction false} OptionTakes(
      c: Command, flag: Token, arg: Argument, vs: seq<Token>, rest: seq<Token>, pos: nat)
    requires FlagOf(c, flag, arg) && Fits(arg, vs, rest)
    ensures NextItem(c, [flag] + vs + rest, pos) == Took(Keyword(flag, arg, vs))
  {
    hide FlagStep, NextItem, Fits;
    var more := vs + rest;
    assert [flag] + vs + rest == [flag] + more;
    CommandTermination.NextOfFlag(c, [flag] + more, pos);
    assert ([flag] + more)[1..] == more;
    FoundStep(c, flag, arg, more);
    KeywordTakes(arg, flag, vs, rest);
  }

  lemma {:induction false} FoundStep(c: Command, flag: Token, arg: Argument, more: seq<Token>)
    requires FlagOf(c, flag, arg)
    ensures FlagStep(c, flag, more) == KeywordStep(arg, flag, more)
  {
    hide KeywordStep, FindKeyword, BundleFrom;
  }

  lemma {:induction false} KeywordTakes(arg: Argument, flag: Token, vs: seq<Token>, rest: seq<Token>)
    requires Fits(arg, vs, rest) && !arg.isHelp
    ensures KeywordStep(arg, flag, vs + rest) == Took(Keyword(flag, arg, vs))
  {
    hide ValueOf, RunOf, IsText;
    var more := vs + rest;
    if more != [] {
      ValueMeaning(more[0], arg.coerceAsString);
      ValueMeaning(more[0], false);
    }
    if vs != [] {
      assert more[0] == vs[0];
      if |vs| == 1 { assert more[..1] == vs; }
      if arg.kind == Multiple && !arg.isJson { RunIs(vs, rest); }
    } else {
      assert more == rest;
    }
  }

  /** Without a value that fits, an option that needs one is refused. */
  lemma {:induction false} OptionRefused(c: Command, flag: Token, arg: Argument, rest: seq<Token>, pos: nat)
    requires FlagOf(c, flag, arg) && arg.kind != Flag && !arg.isJson
    ensures var step := NextItem(c, [flag] + rest, pos);
            && (rest == [] || IsFlag(rest[0]) ==> step == Stops(Fails(RequiresValue(flag))))
            && (rest != [] && !IsFlag(rest[0]) && !ValueToken(rest[0]) ==> step == Stops(Fails(InvalidValue(flag))))
  {
    hide FindKeyword, ValueOf, RunOf, FindSubcommand, PositionalsOf, BundleFrom, IsText;
    assert ([flag] + rest)[1..] == rest;
    if rest != [] {
      ValueMeaning(rest[0], arg.coerceAsString);
    }
  }

  /** A flag no option answers to is refused, unless undeclared long flags are allowed. */
  lemma {:induction false} UnknownRefused(c: Command, flag: Token, rest: seq<Token>, pos: nat)
    requires IsFlag(flag) && (flag.FlagShort? ==> |flag.name| <= 1)
    requires forall arg :: arg in c.args ==> !Matches(arg, flag.name, flag.FlagShort?)
    requires flag.FlagShort? || c.dynamicKeywords.None?
    ensures NextItem(c, [flag] + rest, pos) == Stops(Fails(UnknownOption(flag)))
  {
    hide FindSubcommand, PositionalsOf, BundleFrom, Matches, FindKeyword;
    assert ([flag] + rest)[1..] == rest;
  }

  /** An undeclared long flag takes one value, or all that follow, as the command allows. */
  lemma {:induction false} DynamicTakes(
      c: Command, flag: Token, kind: ArgType, vs: seq<Token>, rest: seq<Token>, pos: nat)
    requires flag.FlagLong? && c.dynamicKeywords == Some(kind) && kind != Flag
    requires forall arg :: arg in c.args ==> !Matches(arg, flag.name, false)
    requires if kind == Single then |vs| == 1 && ValueToken(vs[0])
             else vs != [] && (forall k :: 0 <= k < |vs| ==> ValueToken(vs[k])) && (rest == [] || !ValueToken(rest[0]))
    ensures NextItem(c, [flag] + vs + rest, pos) == Took(Dynamic(flag, kind, vs))
  {
    hide ValueOf, RunOf, FindSubcommand, PositionalsOf, BundleFrom, IsText, Matches, FindKeyword;
    var more := vs + rest;
    assert [flag] + vs + rest == [flag] + more && more[0] == vs[0];
    ValueMeaning(vs[0], false);
    if |vs| == 1 { assert more[..1] == vs; }
    if kind == Multiple { RunIs(vs, rest); }
  }

  /** A value that is no subcommand goes to the next positional, or with all that follow to a list. */
  lemma {:induction false} PositionalTakes(c: Command, vs: seq<Token>, rest: seq<Token>, pos: nat)
    requires pos < |Positionals(c)| && Positionals(c)[pos].kind != Flag && vs != []
    requires forall k :: 0 <= k < |vs| ==> ValueToken(vs[k])
    requires if Positionals(c)[pos].kind == Single then |vs| == 1 else rest == [] || !ValueToken(rest[0])
    requires vs[0].Id? ==> FindSubcommand(c.subs, vs[0].name).Missing? && (c.subs == [] || pos > 0 || c.hasHandler)
    ensures NextItem(c, vs + rest, pos) == Took(Positional(Positionals(c)[pos], vs))
  {
    hide FindSubcommand, PositionalsOf, ValueOf, RunOf, FlagStep, IsText;
    assert (vs + rest)[0] == vs[0];
    ValueMeaning(vs[0], Positionals(c)[pos].coerceAsString);
    if |vs| == 1 { assert (vs + rest)[..1] == vs; }
    if Positionals(c)[pos].kind == Multiple { RunIs(vs, rest); }
  }

  function TextsOf(vs: seq<Token>): (r: seq<string>)
    ensures |r| == |vs| && forall k :: 0 <= k < |r| ==> r[k] == Text(vs[k])
  {
    if vs == [] then [] else TextsOf(vs[..|vs| - 1]) + [Text(vs[|vs| - 1])]
  }

  lemma {:induction false} TextsAreTexts(vs: seq<Token>)
    requires forall k :: 0 <= k < |vs| ==> ValueToken(vs[k])
    ensures Texts(vs) == TextsOf(vs)
  {
    hide Texts, TextsOf, TextOf, Text;
    forall k | 0 <= k < |vs| ensures TextOf(vs[k]) == Text(vs[k]) { ValueMeaning(vs[k], false); }
  }

  /** What one value gives: a number where it may stay one, else its text. */
  predicate Worth(v: ArgValue, t: Token, coerce: bool) {
    if t.IntLit? && !coerce then v == IntValue(t.value)
    else if t.FloatLit? && !coerce then v == FloatValue(t.text)
    else v == StringValue(Text(t))
  }

  /**
   * The value of an option after the last item that names it: a bare switch and the JSON flag are
   * true, a switch with a word is true for `true` alone, a single value is worth its token, and a
   * list is what it was with the texts of the new values behind.
   */
  lemma {:induction false} OptionMeans(
      c: Command, before: seq<Item>, flag: Token, arg: Argument, vs: seq<Token>, later: seq<Item>)
    requires Fits(arg, vs, []) && CommandValues.SetByNone(c, later, arg.name)
    ensures var values := ValuesAfter(c, before + [Keyword(flag, arg, vs)] + later);
            arg.name in values &&
            var v := values[arg.name];
            if vs == [] then v == BoolValue(true)
            else
              match arg.kind
              case Flag => v == BoolValue(Text(vs[0]) == "true")
              case Single => Worth(v, vs[0], arg.coerceAsString)
              case Multiple => v == ListValue(ListSoFar(ValuesAfter(c, before), arg.name) + TextsOf(vs))
  {
    hide ValuesAfter, ListSoFar, ValueOf, Texts, TextsOf, Text, CommandValues.SetByNone;
    CommandValues.LastDecides(c, before, Keyword(flag, arg, vs), later, arg.name);
    if vs != [] {
      ValueMeaning(vs[0], false);
      ValueMeaning(vs[0], true);
      if arg.kind == Multiple && !arg.isJson { TextsAreTexts(vs); }
    }
  }

  /** The value of a positional: its token's worth, or the texts of all of them. */
  lemma {:induction false} PositionalMeans(
      c: Command, before: seq<Item>, arg: Argument, vs: seq<Token>, later: seq<Item>)
    requires vs != [] && arg.kind != Flag && CommandValues.SetByNone(c, later, arg.name)
    requires forall k :: 0 <= k < |vs| ==> ValueToken(vs[k])
    ensures var values := ValuesAfter(c, before + [Positional(arg, vs)] + later);
            arg.name in values &&
            if arg.kind == Single then Worth(values[arg.name], vs[0], arg.coerceAsString)
            else values[arg.name] == ListValue(TextsOf(vs))
  {
    hide ValuesAfter, ValueOf, Texts, TextsOf, Text, CommandValues.SetByNone;
    CommandValues.LastDecides(c, before, Positional(arg, vs), later, arg.name);
    ValueMeaning(vs[0], false);
    ValueMeaning(vs[0], true);
    TextsAreTexts(vs);
  }

  /** The value of an undeclared flag. */
  lemma {:induction false} DynamicMeans(before: seq<Item>, flag: Token, kind: ArgType, vs: seq<Token>)
    requires flag.FlagLong? && kind != Flag && vs != [] && forall k :: 0 <= k < |vs| ==> ValueToken(vs[k])
    ensures var values := DynamicAfter(before + [Dynamic(flag, kind, vs)]);
            flag.name in values &&
            if kind == Single then Worth(values[flag.name], vs[0], false)
            else values[flag.name] == ListValue(TextsOf(vs))
  {
    hide ValueOf, Texts, TextsOf, Text;
    var items := before + [Dynamic(flag, kind, vs)];
    assert items[..|items| - 1] == before;
    ValueMeaning(vs[0], false);
    TextsAreTexts(vs);
  }

  // ------------------------------------------------------------------- combined flags

  ghost predicate AllSwitches(args: seq<Argument>, letters: string) {
    forall i :: 0 <= i < |letters| ==> SwitchLetter(args, letters, i)
  }

  predicate SwitchLetter(args: seq<Argument>, letters: string, i: nat)
    requires i < |letters|
  {
    var found := FindKeyword(args, letters[i..i + 1], true);
    found.Some? && !found.value.isHelp && found.value.kind == Flag
  }

  lemma {:induction false} BundleEnds(args: seq<Argument>, letters: string)
    requires AllSwitches(args, letters)
    ensures BundleFrom(args, letters).Ended?
    decreases |letters|
  {
    hide FindKeyword;
    if letters != [] {
      assert SwitchLetter(args, letters, 0) && letters[0..1] == letters[..1];
      forall i | 0 <= i < |letters| - 1 ensures SwitchLetter(args, letters[1..], i) {
        assert SwitchLetter(args, letters, i + 1) && letters[1..][i..i + 1] == letters[i + 1..i + 2];
      }
      BundleEnds(args, letters[1..]);
    }
  }

  lemma {:induction false} LetterIsNamed(args: seq<Argument>, letters: string, i: nat)
    requires i < |letters| && FindKeyword(args, letters[i..i + 1], true).Some?
    ensures FindKeyword(args, letters[i..i + 1], true).value.name in BundleNames(args, letters)
    decreases |letters|
  {
    hide FindKeyword;
    var n := |letters| - 1;
    assert letters[n..] == letters[n..n + 1];
    if i < n {
      assert letters[..n][i..i + 1] == letters[i..i + 1];
      LetterIsNamed(args, letters[..n], i);
    }
  }

  /** Several letters behind one dash are taken together if all are switches, and every one of them is then on. */
  lemma {:induction false} BundleMeans(
      c: Command, letters: string, rest: seq<Token>, pos: nat, before: seq<Item>, later: seq<Item>, i: nat)
    requires |letters| > 1 && AllSwitches(c.args, letters) && i < |letters| && SwitchLetter(c.args, letters, i)
    requires CommandValues.SetByNone(c, later, FindKeyword(c.args, letters[i..i + 1], true).value.name)
    ensures NextItem(c, [Lexer.FlagShort(letters)] + rest, pos) == Took(Bundle(letters))
    ensures var name := FindKeyword(c.args, letters[i..i + 1], true).value.name;
            var values := ValuesAfter(c, before + [Bundle(letters)] + later);
            name in values && values[name] == BoolValue(true)
  {
    hide FindKeyword, ValuesAfter, BundleNames, BundleFrom, CommandValues.SetByNone, FindSubcommand, PositionalsOf;
    BundleEnds(c.args, letters);
    LetterIsNamed(c.args, letters, i);
    var name := FindKeyword(c.args, letters[i..i + 1], true).value.name;
    CommandValues.LastDecides(c, before, Bundle(letters), later, name);
    assert ([Lexer.FlagShort(letters)] + rest)[1..] == rest;
  }

  // ----------------------------------------------------------------------- help

  /**
   * Help is what a parse comes to exactly if a bundle holds a help flag, or a help flag or a group
   * without handler is met and the hooks accept.
   */
  lemma {:induction false} HelpExactly(c: Command, ts: seq<Token>, hook: Hook)
    ensures var l := Land(c, ts);
            Parse(c, ts, hook).status.HelpRequested? <==>
            || l.stop.BundledHelp?
            || (l.stop.Help? && hook(l.command, true))
            || (l.stop.Ended? && InOrder(l.command, l.items) && !l.command.hasHandler && l.command.subs != []
                && hook(l.command, true))
  {
    hide Parse, Land, Finish, InOrder, DeclaredOrder;
    ParseConcludes(c, ts, hook);
    LandedInOrder(c, ts);
    var l := Land(c, ts);
    FinishInOrder(l.command, l.items, hook);
  }
}
