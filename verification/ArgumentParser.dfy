/** The program's two front doors: an argument vector and a command line. */
module ArgumentParser {
  import opened Native
  import Lexer
  import opened Commands
  import opened CommandLaws
  import CommandRun
  import Tokenizer

  // -------------------------------------------------------------------- tokens

  /** A literal that spans the whole argument, or a name. */
  function Literal(arg: string): (t: Token)
    ensures !t.DoubleMinus?
  {
    match Lexer.LexAll(arg)
    case Failed(_) => Lexer.Id(arg)
    case Tokens(ts) =>
      if |ts| == 1 && (ts[0].IntLit? || ts[0].FloatLit? || ts[0].True? || ts[0].False?) then ts[0] else Lexer.Id(arg)
  }

  function Classify(arg: string): (t: Token)
    ensures !t.DoubleMinus?
  {
    if |arg| > 2 && arg[0] == '-' && arg[1] == '-' then Lexer.FlagLong(arg[2..])
    else if |arg| > 1 && arg[0] == '-' then Lexer.FlagShort(arg[1..])
    else if |arg| >= 2 && arg[0] == arg[|arg| - 1] && (arg[0] == '"' || arg[0] == '\'')
    then Lexer.StrLit(arg[1..|arg| - 1])
    else Literal(arg)
  }

  const DELIMITER := "--"

  function Names(args: seq<string>): (ts: seq<Token>)
    ensures |ts| == |args| && forall k :: 0 <= k < |ts| ==> ts[k] == Lexer.Id(args[k])
  {
    if args == [] then [] else Names(args[..|args| - 1]) + [Lexer.Id(args[|args| - 1])]
  }

  /** Arguments up to the delimiter are classified, those after it are names. */
  function TokensOf(args: seq<string>): seq<Token> {
    if args == [] then []
    else if args[0] == DELIMITER then [Lexer.DoubleMinus] + Names(args[1..])
    else [Classify(args[0])] + TokensOf(args[1..])
  }

  function ArgsAfter(args: seq<string>): seq<string> {
    if args == [] then [] else if args[0] == DELIMITER then args[1..] else ArgsAfter(args[1..])
  }

  function TokensAfter(ts: seq<Token>): seq<Token> {
    if ts == [] then [] else if ts[0].DoubleMinus? then ts[1..] else TokensAfter(ts[1..])
  }

  lemma {:induction false} AfterTheDelimiter(args: seq<string>)
    ensures TokensAfter(TokensOf(args)) == Names(ArgsAfter(args))
    decreases |args|
  {
    hide Classify;
    if args != [] {
      var first := if args[0] == DELIMITER then Lexer.DoubleMinus else Classify(args[0]);
      var more := if args[0] == DELIMITER then Names(args[1..]) else TokensOf(args[1..]);
      assert ([first] + more)[1..] == more;
      if args[0] != DELIMITER { AfterTheDelimiter(args[1..]); }
    }
  }

  /** The conversion loop. */
  method Tokenize(args: seq<string>) returns (tokens: seq<Token>)
    ensures tokens == TokensOf(args)
  {
    hide Classify, Names, TokensOf;
    tokens := [];
    var passthroughMode := false;
    assert args[0..] == args;
    for i := 0 to |args|
      invariant TokensOf(args) == tokens + if passthroughMode then Names(args[i..]) else TokensOf(args[i..])
    {
      TokensStep(args, i);
      if passthroughMode {
        tokens := tokens + [Lexer.Id(args[i])];
      } else if args[i] == DELIMITER {
        tokens := tokens + [Lexer.DoubleMinus];
        passthroughMode := true;
      } else {
        tokens := tokens + [Classify(args[i])];
      }
    }
    NoTokens();
    assert args[|args|..] == [];
  }

  lemma {:induction false} TokensStep(args: seq<string>, i: nat)
    requires i < |args|
    ensures Names(args[i..]) == [Lexer.Id(args[i])] + Names(args[i + 1..])
    ensures TokensOf(args[i..]) ==
            if args[i] == DELIMITER then [Lexer.DoubleMinus] + Names(args[i + 1..])
            else [Classify(args[i])] + TokensOf(args[i + 1..])
  {
    hide Classify, Names;
    assert args[i..][1..] == args[i + 1..];
  }

  lemma {:induction false} NoTokens()
    ensures Names([]) == [] && TokensOf([]) == []
  {
  }

  /** An argument taken as a name is worth its own text. */
  lemma {:induction false} NamesKeepTheirText(arg: string, kind: ArgType, coerce: bool)
    requires Classify(arg).Id? && kind != Flag
    ensures ValueOf(Classify(arg), kind, coerce) == StringValue(arg)
  {
    hide Lexer.LexAll;
    LiteralNames(arg);
  }

  lemma {:induction false} LiteralNames(arg: string)
    ensures Literal(arg).Id? ==> Literal(arg).name == arg
  {
    hide Lexer.LexAll;
  }

  /**
   * An integer argument is worth its number. Where text is asked for it keeps its own text exactly if
   * it was written without underscores, capitals, blanks or needless zeros.
   */
  lemma {:induction false} IntegersKeepTheirText(arg: string)
    requires Classify(arg).IntLit?
    ensures ValueOf(Classify(arg), Single, false) == IntValue(Classify(arg).value)
    ensures ValueOf(Classify(arg), Single, true) == StringValue(arg) <==> Lexer.Canonical(arg)
    ensures ValueOf(Classify(arg), Multiple, false) == StringValue(arg) <==> Lexer.Canonical(arg)
  {
    hide Lexer.LexAll, Lexer.PrintInt, Lexer.Canonical, Literal;
    IntegerIsAlone(arg);
    Lexer.PrintsAsWritten(arg);
  }

  lemma {:induction false} IntegerIsAlone(arg: string)
    requires Classify(arg).IntLit?
    ensures Lexer.LexAll(arg) == Lexer.Tokens([Classify(arg)])
  {
    hide Lexer.LexAll;
    assert Literal(arg) == Classify(arg);
    var ts := Lexer.LexAll(arg).tokens;
    assert ts == [ts[0]];
  }

  /** `007` is worth 7, and as text it becomes `7`. */
  lemma {:induction false} LeadingZerosExample()
    ensures Classify("007") == Lexer.IntLit(7, Lexer.Dec)
    ensures ValueOf(Classify("007"), Multiple, false) == StringValue("7")
  {
    hide Lexer.LexAll, Lexer.LexNumber, Lexer.NextToken, Lexer.SkipBlanks;
    Lexer.SevenReads();
    Lexer.DigitsStart("007");
    Lexer.LexHead("007");
    Lexer.EmptyLexes();
    OneInteger("007", Lexer.IntLit(7, Lexer.Dec));
    SevenPrints();
  }

  lemma {:induction false} SevenPrints()
    ensures Lexer.Print(Lexer.IntLit(7, Lexer.Dec)) == "7"
  {
  }

  lemma {:induction false} OneInteger(arg: string, t: Token)
    requires arg != [] && Lexer.IsDec(arg[0]) && t.IntLit? && Lexer.LexAll(arg) == Lexer.Tokens([t])
    ensures Classify(arg) == t
  {
    hide Lexer.LexAll;
  }

  /** Any string can be written between quotes, on a line or as an argument, and reaches options as itself. */
  lemma {:induction false} AnyStringReaches(v: string, coerce: bool)
    ensures var t, text := Lexer.StrLit(Lexer.Written(v)), ['"'] + Lexer.Written(v) + ['"'];
            && Lexer.LexAll(text) == Lexer.Tokens([t]) && Classify(text) == t
            && ValueOf(t, Single, coerce) == StringValue(v) && ValueOf(t, Multiple, coerce) == StringValue(v)
            && ValueOf(t, Flag, coerce) == BoolValue(v == "true")
  {
    hide Lexer.LexAll, Lexer.Written, Lexer.StrValue;
    Lexer.AnyStringReads(v);
    QuotesAreTaken('"', Lexer.Written(v));
  }

  lemma {:induction false} QuotesAreTaken(quote: char, s: string)
    requires quote == '"' || quote == '\''
    ensures Classify([quote] + s + [quote]) == Lexer.StrLit(s)
  {
    var arg := [quote] + s + [quote];
    assert arg[1..|arg| - 1] == s;
  }

  /**
   * The shapes of arguments: two dashes and a word, one dash and a word, quotes around anything; the
   * words of truth, and what lexes to nothing but a number, are literals; all else is a name.
   */
  lemma {:induction false} ArgumentShapes(w: string)
    ensures w != [] ==> Classify("--" + w) == Lexer.FlagLong(w)
    ensures w != [] && w[0] != '-' ==> Classify("-" + w) == Lexer.FlagShort(w)
    ensures Classify(['\''] + w + ['\'']) == Lexer.StrLit(w) && Classify(['"'] + w + ['"']) == Lexer.StrLit(w)
    ensures Classify("true") == Lexer.True && Classify("false") == Lexer.False
    ensures Classify("-") == Lexer.Id("-")
  {
    hide Literal;
    QuotesAreTaken('\'', w);
    QuotesAreTaken('"', w);
    assert ("--" + w)[2..] == w && ("-" + w)[1..] == w;
    WordsOfTruth();
    LoneDash();
  }

  lemma {:induction false} WordsOfTruth()
    ensures Literal("true") == Lexer.True && Literal("false") == Lexer.False
  {
    hide Lexer.LexAll;
    Lexer.PrintedAloneReads(Lexer.True);
    Lexer.PrintedAloneReads(Lexer.False);
    assert Lexer.Same([Lexer.True][0], Lexer.LexAll("true").tokens[0]);
    assert Lexer.Same([Lexer.False][0], Lexer.LexAll("false").tokens[0]);
  }

  lemma {:induction false} LoneDash()
    ensures Literal("-") == Lexer.Id("-")
  {
    hide Lexer.LexNumber, Lexer.LexString, Lexer.LexWord;
    assert "-"[1..] == [];
    assert Lexer.SkipBlanks("-") == "-" && Lexer.NextToken("-") == Lexer.Lexed(Lexer.Minus, []);
    Lexer.LexHead("-");
    Lexer.EmptyLexes();
  }

  /** What lexes to one number, and is no flag and not quoted, is that number; what does not lex is a name. */
  lemma {:induction false} NumbersAreTaken(arg: string, t: Token)
    requires arg != [] && arg[0] != '-' && arg[0] != '"' && arg[0] != '\''
    ensures (t.IntLit? || t.FloatLit?) && Lexer.LexAll(arg) == Lexer.Tokens([t]) ==> Classify(arg) == t
    ensures Lexer.LexAll(arg).Failed? ==> Classify(arg) == Lexer.Id(arg)
  {
    hide Lexer.LexAll;
  }

  // --------------------------------------------------------------- the delimiter

  /** No option and no positional takes the delimiter as a value. */
  lemma {:induction false} DelimiterIsNoValue(c: Command, ts: seq<Token>, pos: nat)
    requires ts != [] && NextItem(c, ts, pos).Took?
    ensures var item := NextItem(c, ts, pos).item;
            if ts[0].DoubleMinus? then item == Rest(ts[1..])
            else !item.Rest? && forall k :: 0 <= k < |Render(item)| ==> !Render(item)[k].DoubleMinus?
  {
    hide FindSubcommand, PositionalsOf, FlagStep, RunOf, ValueOf, IsText;
    ItemsAreFronts(c, ts, pos);
    var item := NextItem(c, ts, pos).item;
    if IsFlag(ts[0]) {
      FlagTakesNoDelimiter(c, ts[0], ts[1..]);
    } else if !ts[0].DoubleMinus? {
      RunsAreText(ts);
    }
  }

  lemma {:induction false} RunsAreText(ts: seq<Token>)
    ensures forall k :: 0 <= k < |RunOf(ts)| ==> !RunOf(ts)[k].DoubleMinus?
  {
    hide RunOf, ValueOf, IsText;
    forall k | 0 <= k < |RunOf(ts)| ensures !RunOf(ts)[k].DoubleMinus? {
      assert RunOf(ts)[k] in RunOf(ts);
      SeveralAreText(RunOf(ts)[k], false);
    }
  }

  lemma {:induction false} OnlyTextHasValue(t: Token, kind: ArgType, coerce: bool)
    ensures t.DoubleMinus? ==> ValueOf(t, kind, coerce).NoValue?
  {
  }

  lemma {:induction false} FlagTakesNoDelimiter(c: Command, flag: Token, more: seq<Token>)
    requires IsFlag(flag) && FlagStep(c, flag, more).Took?
    ensures var item := FlagStep(c, flag, more).item;
            !item.Rest? && forall k :: 0 <= k < |Render(item)| ==> !Render(item)[k].DoubleMinus?
  {
    hide ValueOf, FindKeyword, BundleFrom, RunOf, IsText;
    RunsAreText(more);
    if more != [] {
      forall kind, coerce ensures more[0].DoubleMinus? ==> ValueOf(more[0], kind, coerce).NoValue? {
        OnlyTextHasValue(more[0], kind, coerce);
      }
    }
  }

  lemma {:induction false} SkipNonDelimiters(front: seq<Token>, ts: seq<Token>)
    requires forall k :: 0 <= k < |front| ==> !front[k].DoubleMinus?
    ensures TokensAfter(front + ts) == TokensAfter(ts)
    decreases |front|
  {
    if front == [] {
      assert front + ts == ts;
    } else {
      assert (front + ts)[1..] == front[1..] + ts;
      SkipNonDelimiters(front[1..], ts);
    }
  }

  lemma {:induction false} PassthroughFront(item: Item, items: seq<Item>)
    ensures PassthroughAfter([item] + items) == Passed(item) + PassthroughAfter(items)
    decreases |items|
  {
    hide PassthroughAfter, Passed;
    NothingPassed();
    if items == [] {
      assert [item] + items == [] + [item];
      PassthroughAppend([], item);
    } else {
      var before, last := items[..|items| - 1], items[|items| - 1];
      assert items == before + [last];
      FrontAndLast(item, before, last);
      PassthroughFront(item, before);
      PassthroughAppend(before, last);
      PassthroughAppend([item] + before, last);
    }
  }

  lemma {:induction false} FrontAndLast(item: Item, before: seq<Item>, last: Item)
    ensures [item] + (before + [last]) == [item] + before + [last]
  {
  }

  lemma {:induction false} PassthroughAppend(items: seq<Item>, item: Item)
    ensures PassthroughAfter(items + [item]) == PassthroughAfter(items) + Passed(item)
  {
    hide Passed;
    assert (items + [item])[..|items|] == items;
  }

  /** Whatever a command reads to its end, it passes through what follows the first delimiter. */
  lemma {:induction false} PassesWhatFollows(c: Command, ts: seq<Token>, pos: nat)
    ensures var r := ReadAll(c, ts, pos);
            (r.stop.Ended? ==> PassthroughAfter(r.items) == Printed(TokensAfter(ts)))
            && (r.stop.Enter? ==> TokensAfter(r.stop.rest) == TokensAfter(ts))
    decreases |ts|
  {
    hide ReadAll, NextItem, Left, RenderAll, PassthroughAfter, TokensAfter, Printed;
    if ts == [] || !NextItem(c, ts, pos).Took? {
      ReadNone(c, ts, pos);
      NothingPassed();
      if ts != [] { EntersPastName(c, ts, pos); }
    } else {
      var item := NextItem(c, ts, pos).item;
      ReadOne(c, ts, pos);
      var n, next := |Render(item)|, pos + Advance(item);
      var more := ReadAll(c, ts[n..], next);
      PassthroughFront(item, more.items);
      DelimiterIsNoValue(c, ts, pos);
      if item.Rest? {
        assert ts[n..] == [];
        ReadNone(c, [], next);
        NothingPassed();
        FirstIsDelimiter(ts);
      } else {
        PassesWhatFollows(c, ts[n..], next);
        SkipNonDelimiters(Render(item), ts[n..]);
        assert ts == Render(item) + ts[n..];
        assert [] + PassthroughAfter(more.items) == PassthroughAfter(more.items);
      }
    }
  }

  lemma {:induction false} NothingPassed()
    ensures PassthroughAfter([]) == [] && TokensAfter([]) == [] && Printed([]) == []
  {
  }

  lemma {:induction false} FirstIsDelimiter(ts: seq<Token>)
    requires ts != [] && ts[0].DoubleMinus?
    ensures TokensAfter(ts) == ts[1..]
  {
  }

  lemma {:induction false} EntersPastName(c: Command, ts: seq<Token>, pos: nat)
    requires ts != [] && !NextItem(c, ts, pos).Took?
    ensures var stop := StopOf(NextItem(c, ts, pos));
            stop.Enter? ==> TokensAfter(stop.rest) == TokensAfter(ts)
  {
    hide NextItem;
    EnterIsNext(c, ts, pos);
  }

  lemma {:induction false} LandingPasses(c: Command, ts: seq<Token>)
    ensures var l := Land(c, ts); l.stop.Ended? ==> PassthroughAfter(l.items) == Printed(TokensAfter(ts))
    decreases |ts|
  {
    hide ReadAll, Left, PassthroughAfter, TokensAfter, Printed;
    PassesWhatFollows(c, ts, 0);
    EnterIsShorter(c, ts, 0);
    var stop := ReadAll(c, ts, 0).stop;
    if stop.Enter? { LandingPasses(stop.command, stop.rest); }
  }

  lemma {:induction false} NamesPrintThemselves(args: seq<string>)
    ensures Printed(Names(args)) == args
  {
    hide Printed, Names;
  }

  lemma {:induction false} FinishPasses(c: Command, items: seq<Item>, hook: Hook)
    ensures var r := Finish(c, items, hook);
            !r.status.ParseError? ==> r.passthrough == PassthroughAfter(items)
    ensures forall k :: 0 <= k < |Finish(c, items, hook).calls| ==>
            Finish(c, items, hook).calls[k].passthrough == PassthroughAfter(items)
  {
    hide SeenAfter, FilledAfter, PositionalsOf, PassthroughAfter, Conflicting, FirstMissing, FirstUnfilled,
      FinalValues, DynamicAfter;
  }

  // -------------------------------------------------------------------- results

  /** What is left over after a success is an error. */
  ghost function Checked(r: Outcome): Outcome {
    if r.status.Success? && r.unread != [] then Failed(UnexpectedArguments(r.unread[0])) else r
  }

  ghost function ParseArgs(root: Command, args: seq<string>, hook: Hook): Outcome {
    Checked(Parse(root, TokensOf(args), hook))
  }

  ghost function ParseLine(root: Command, line: string, hook: Hook): Outcome {
    match Lexer.LexAll(line)
    case Failed(error) => Failed(BadText(error))
    case Tokens(ts) => Checked(Parse(root, ts, hook))
  }

  /**
   * On success the handler is passed exactly the arguments after the first delimiter, verbatim and
   * in order, at whatever depth the command stands, and none if there is no delimiter.
   */
  lemma {:induction false} PassedVerbatim(root: Command, args: seq<string>, hook: Hook)
    ensures var r := ParseArgs(root, args, hook);
            (r.status.Success? ==> r.passthrough == ArgsAfter(args))
            && forall k :: 0 <= k < |r.calls| ==> r.calls[k].passthrough == ArgsAfter(args)
    ensures DELIMITER !in args ==> ArgsAfter(args) == []
  {
    hide Parse, Land, Finish, TokensOf, ArgsAfter, TokensAfter, Names, Printed, PassthroughAfter;
    var ts := TokensOf(args);
    var l := Land(root, ts);
    ParseConcludes(root, ts, hook);
    LandingLeft(root, ts);
    LandingPasses(root, ts);
    AfterTheDelimiter(args);
    NamesPrintThemselves(ArgsAfter(args));
    FinishPasses(l.command, l.items, hook);
    if DELIMITER !in args { NoDelimiter(args); }
  }

  lemma {:induction false} NoDelimiter(args: seq<string>)
    requires DELIMITER !in args
    ensures ArgsAfter(args) == []
  {
    if args != [] { NoDelimiter(args[1..]); }
  }

  /** Only a hook that refuses help leaves arguments over; otherwise that check never fails. */
  lemma {:induction false} LeftoverNeedsRefusal(root: Command, ts: seq<Token>, hook: Hook)
    ensures var l := Land(root, ts);
            Checked(Parse(root, ts, hook)) != Parse(root, ts, hook) <==> l.stop.Help? && !hook(l.command, true)
  {
    hide Parse, Land;
    SuccessReadsAll(root, ts, hook);
  }

  /** Under hooks that refuse help, `--help x` is a success with both tokens unread, reported as an error. */
  lemma {:induction false} RefusedHelpExample(c: Command, hook: Hook)
    requires FindKeyword(c.args, "help", false).Some? && FindKeyword(c.args, "help", false).value.isHelp
    requires !hook(c, true)
    ensures var ts := [Lexer.FlagLong("help"), Lexer.Id("x")];
            && Parse(c, ts, hook) == Outcome(Success, [], [], ts)
            && TokensOf(["--help", "x"]) == ts
            && ParseArgs(c, ["--help", "x"], hook).status == ParseError(UnexpectedArguments(ts[0]))
  {
    hide Parse, ReadAll, Left, RenderAll, NextItem, FindKeyword, TokensOf, Classify;
    var ts := [Lexer.FlagLong("help"), Lexer.Id("x")];
    HelpStops(c, ts);
    ReadNone(c, ts, 0);
    ParseConcludes(c, ts, hook);
    NothingPassed();
    HelpTokens();
  }

  lemma {:induction false} HelpStops(c: Command, ts: seq<Token>)
    requires ts != [] && ts[0] == Lexer.FlagLong("help")
    requires FindKeyword(c.args, "help", false).Some? && FindKeyword(c.args, "help", false).value.isHelp
    ensures NextItem(c, ts, 0) == Stops(Help)
  {
    hide FindKeyword, FindSubcommand, PositionalsOf, ValueOf, RunOf;
  }

  lemma {:induction false} HelpTokens()
    ensures TokensOf(["--help", "x"]) == [Lexer.FlagLong("help"), Lexer.Id("x")]
  {
    hide TokensOf, Names, Literal, Lexer.LexAll;
    var args := ["--help", "x"];
    assert args[0..] == args;
    TokensStep(args, 0);
    TokensStep(args, 1);
    NoTokens();
    assert args[2..] == [];
    assert "--help"[2..] == "help" && args[0] != DELIMITER && args[1] != DELIMITER;
    LetterIsName();
  }

  lemma {:induction false} LetterIsName()
    ensures Literal("x") == Lexer.Id("x")
  {
    hide Lexer.LexAll, Lexer.Print;
    var t := Lexer.Id("x");
    XPrints();
    Lexer.PrintedAloneReads(t);
    var ts := Lexer.LexAll("x").tokens;
    assert Lexer.Same([t][0], ts[0]);
  }

  lemma {:induction false} XPrints()
    ensures Lexer.Print(Lexer.Id("x")) == "x"
  {
  }

  // -------------------------------------------------------------------- methods

  method ParseArguments(root: Command, args: seq<string>, hook: Hook)
    returns (status: Status, calls: seq<Invocation>, passthrough: seq<string>)
    ensures var spec := ParseArgs(root, args, hook);
            status == spec.status && calls == spec.calls && (status.Success? ==> passthrough == spec.passthrough)
  {
    hide Parse, TokensOf;
    var tokens := Tokenize(args);
    status, calls, passthrough := ParseTokens(root, tokens, hook);
  }

  lemma {:induction false} UnreadCallsNothing(root: Command, ts: seq<Token>, hook: Hook)
    ensures Parse(root, ts, hook).unread != [] ==> Parse(root, ts, hook).calls == []
  {
    hide Parse, Land, Finish;
    ParseConcludes(root, ts, hook);
    var l := Land(root, ts);
    FinishReadsAll(l.command, l.items, hook);
  }

  /** Tokens left over after a success are reported as an error. */
  method ParseTokens(root: Command, tokens: seq<Token>, hook: Hook)
    returns (status: Status, calls: seq<Invocation>, passthrough: seq<string>)
    ensures var spec := Checked(Parse(root, tokens, hook));
            status == spec.status && calls == spec.calls && (status.Success? ==> passthrough == spec.passthrough)
  {
    hide Parse;
    UnreadCallsNothing(root, tokens, hook);
    assert tokens[0..] == tokens;
    var next;
    status, next, calls, passthrough := CommandRun.ParseCommand(root, tokens, 0, hook);
    if status.Success? && next < |tokens| {
      status := ParseError(UnexpectedArguments(tokens[next]));
    }
  }

  method ParseCommandLine(root: Command, line: string, hook: Hook)
    returns (status: Status, calls: seq<Invocation>, passthrough: seq<string>)
    ensures var spec := ParseLine(root, line, hook);
            status == spec.status && calls == spec.calls && (status.Success? ==> passthrough == spec.passthrough)
  {
    hide Parse, Lexer.LexAll;
    var lexer := new Tokenizer.Iterator(line);
    var tokens, failure := lexer.LexAll();
    if failure.Some? { return ParseError(BadText(failure.value)), [], []; }
    if tokens != [] && tokens[|tokens| - 1] == Lexer.Eof { tokens := tokens[..|tokens| - 1]; }
    status, calls, passthrough := ParseTokens(root, tokens, hook);
  }
}
