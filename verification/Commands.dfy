/**
 * Commands, their arguments and what a token list means to them. A parse reads the tokens item by
 * item; an item is a piece of the token list together with the argument it is for.
 */
module Commands {
  import opened Native
  import Lexer
  type Token = Lexer.Token

  // ---------------------------------------------------------------- definitions

  datatype ArgType = Flag | Single | Multiple

  datatype ArgValue =
    | NoValue
    | BoolValue(b: bool)
    | IntValue(i: int)
    | FloatValue(text: string)
    | StringValue(s: string)
    | ListValue(list: seq<string>)

  datatype Argument = Argument(
    name: string,
    aliases: seq<string>,
    kind: ArgType,
    positional: bool,
    required: bool,
    coerceAsString: bool,
    defaultValue: ArgValue,
    isHelp: bool,
    isJson: bool,
    conflictsWith: seq<string>)

  /** The subcommands are listed in the order of their names. */
  datatype Command = Command(
    name: string,
    aliases: seq<string>,
    args: seq<Argument>,
    subs: seq<Command>,
    hasHandler: bool,
    dynamicKeywords: Option<ArgType>,
    passthrough: bool)

  function PositionalsOf(args: seq<Argument>): (ps: seq<Argument>)
    ensures forall p :: p in ps ==> p.positional && p in args && !p.isHelp && !p.isJson
  {
    if args == [] then []
    else
      var more := PositionalsOf(args[1..]);
      if args[0].positional && !args[0].isHelp && !args[0].isJson then [args[0]] + more else more
  }

  function Positionals(c: Command): seq<Argument> {
    PositionalsOf(c.args)
  }

  // --------------------------------------------------------------------- lookup

  predicate AliasMatches(alias: string, name: string, short: bool) {
    if short then |alias| == 2 && alias[0] == '-' && alias[1..] == name
    else |alias| > 2 && alias[..2] == "--" && alias[2..] == name
  }

  predicate Matches(arg: Argument, name: string, short: bool) {
    !arg.positional
    && (arg.name == name || exists k :: 0 <= k < |arg.aliases| && AliasMatches(arg.aliases[k], name, short))
  }

  /** The first argument that answers to a flag. */
  function FindKeyword(args: seq<Argument>, name: string, short: bool): (r: Option<Argument>)
    ensures r.Some? ==> r.value in args && Matches(r.value, name, short)
    ensures r.None? ==> forall arg :: arg in args ==> !Matches(arg, name, short)
  {
    if args == [] then None
    else if Matches(args[0], name, short) then Some(args[0])
    else FindKeyword(args[1..], name, short)
  }

  datatype Lookup = Found(command: Command) | Ambiguous | Missing

  function ByName(subs: seq<Command>, word: string): (r: Lookup)
    ensures r.Found? ==> r.command in subs
  {
    if subs == [] then Missing
    else if subs[0].name == word then Found(subs[0])
    else ByName(subs[1..], word)
  }

  function ByAlias(subs: seq<Command>, word: string): (r: Lookup)
    ensures r.Found? ==> r.command in subs
  {
    if subs == [] then Missing
    else
      var more := ByAlias(subs[1..], word);
      if word !in subs[0].aliases then more
      else if more.Missing? then Found(subs[0])
      else Ambiguous
  }

  /** A name comes before any alias; an alias two commands share is refused. */
  function FindSubcommand(subs: seq<Command>, word: string): (r: Lookup)
    ensures r.Found? ==> r.command in subs
  {
    if ByName(subs, word).Found? then ByName(subs, word) else ByAlias(subs, word)
  }

  ghost predicate OnlyAlias(subs: seq<Command>, word: string, k: nat) {
    k < |subs| && word in subs[k].aliases && forall j :: 0 <= j < |subs| && j != k ==> word !in subs[j].aliases
  }

  lemma {:induction false} NoAlias(subs: seq<Command>, word: string)
    ensures ByAlias(subs, word).Missing? <==> forall j :: 0 <= j < |subs| ==> word !in subs[j].aliases
    decreases |subs|
  {
    if subs != [] {
      NoAlias(subs[1..], word);
      assert forall j :: 1 <= j < |subs| ==> subs[j] == subs[1..][j - 1];
    }
  }

  /** An alias finds a command exactly if that command alone has it. */
  lemma {:induction false} AliasesFindOne(subs: seq<Command>, word: string, k: nat)
    requires k < |subs|
    ensures OnlyAlias(subs, word, k) ==> ByAlias(subs, word) == Found(subs[k])
    ensures ByAlias(subs, word).Found? ==> exists i: nat :: OnlyAlias(subs, word, i)
    decreases |subs|
  {
    hide ByAlias;
    var more := subs[1..];
    ByAliasStep(subs, word);
    NoAlias(more, word);
    assert forall j :: 1 <= j < |subs| ==> subs[j] == more[j - 1];
    if more != [] { AliasesFindOne(more, word, if k > 0 then k - 1 else 0); }
    if OnlyAlias(subs, word, k) && k > 0 {
      assert OnlyAlias(more, word, k - 1) by {
        assert forall j :: 0 <= j < |more| ==> more[j] == subs[j + 1];
      }
    }
    if ByAlias(subs, word).Found? {
      if word in subs[0].aliases {
        assert OnlyAlias(subs, word, 0);
      } else if more != [] {
        var i: nat :| OnlyAlias(more, word, i);
        assert OnlyAlias(subs, word, i + 1);
      }
    }
  }

  lemma {:induction false} ByAliasStep(subs: seq<Command>, word: string)
    requires subs != []
    ensures var more := ByAlias(subs[1..], word);
            ByAlias(subs, word) ==
            if word !in subs[0].aliases then more else if more.Missing? then Found(subs[0]) else Ambiguous
    ensures ByAlias([], word) == Missing
  {
  }

  // --------------------------------------------------------------------- values

  predicate IsFlag(t: Token) {
    t.FlagShort? || t.FlagLong?
  }

  /** What a token is worth to an argument, if anything. */
  function ValueOf(t: Token, kind: ArgType, coerce: bool): ArgValue {
    var expectString := kind != Flag;
    var preferString := kind == Multiple || coerce;
    match t
    case Id(name) => if kind == Flag then BoolValue(name == "true") else StringValue(name)
    case StrLit(raw) =>
      if kind == Flag then BoolValue(Lexer.StrValue(raw) == "true") else StringValue(Lexer.StrValue(raw))
    case IntLit(v, _) =>
      if !expectString then NoValue else if preferString then StringValue(Lexer.Print(t)) else IntValue(v)
    case FloatLit(text, _) =>
      if !expectString then NoValue else if preferString then StringValue(Lexer.Print(t)) else FloatValue(text)
    case True => if expectString then StringValue("true") else BoolValue(true)
    case False => if expectString then StringValue("false") else BoolValue(false)
    case Times => if expectString then StringValue("*") else NoValue
    case _ => NoValue
  }

  /** Tokens that can be one of several values. */
  predicate IsText(t: Token) {
    ValueOf(t, Multiple, false).StringValue?
  }

  function TextOf(t: Token): string {
    var v := ValueOf(t, Multiple, false);
    if v.StringValue? then v.s else ""
  }

  function Texts(ts: seq<Token>): (r: seq<string>)
    ensures |r| == |ts| && forall k :: 0 <= k < |r| ==> r[k] == TextOf(ts[k])
  {
    if ts == [] then [] else Texts(ts[..|ts| - 1]) + [TextOf(ts[|ts| - 1])]
  }

  /** One of several values is always taken as text. */
  lemma {:induction false} SeveralAreText(t: Token, coerce: bool)
    ensures ValueOf(t, Multiple, coerce) == if IsText(t) then StringValue(TextOf(t)) else NoValue
    ensures IsFlag(t) || t.DoubleMinus? || t.Minus? || t.Eof? <==> !IsText(t)
  {
  }

  /** The longest run of values. */
  function RunOf(ts: seq<Token>): (r: seq<Token>)
    ensures |r| <= |ts| && r == ts[..|r|]
    ensures forall t :: t in r ==> IsText(t) && !IsFlag(t)
    ensures |r| < |ts| ==> IsFlag(ts[|r|]) || !IsText(ts[|r|])
  {
    if ts == [] || IsFlag(ts[0]) || !IsText(ts[0]) then [] else [ts[0]] + RunOf(ts[1..])
  }

  // ---------------------------------------------------------------------- items

  datatype Item =
    | Bundle(letters: string)
    | Keyword(flag: Token, arg: Argument, values: seq<Token>)
    | Dynamic(flag: Token, kind: ArgType, values: seq<Token>)
    | Positional(arg: Argument, values: seq<Token>)
    | Rest(tokens: seq<Token>)

  /** The tokens an item was read from. */
  function Render(item: Item): (ts: seq<Token>)
    ensures !item.Positional? ==> ts != []
  {
    match item
    case Bundle(letters) => [Lexer.FlagShort(letters)]
    case Keyword(flag, _, values) => [flag] + values
    case Dynamic(flag, _, values) => [flag] + values
    case Positional(_, values) => values
    case Rest(tokens) => [Lexer.DoubleMinus] + tokens
  }

  function RenderAll(items: seq<Item>): seq<Token> {
    if items == [] then [] else Render(items[0]) + RenderAll(items[1..])
  }

  datatype Failure =
    | UnexpectedDelimiter
    | UnknownBundled(letter: char)
    | NotCombinable(letter: char)
    | UnknownOption(flag: Token)
    | RequiresValue(flag: Token)
    | InvalidValue(flag: Token)
    | BadDynamicKeywords
    | AmbiguousAlias(word: string)
    | UnknownCommand(word: string)
    | InvalidPositional(name: string)
    | UnexpectedArgument(token: Token)
    | MissingOption(name: string)
    | MissingPositional(name: string)
    | ConflictingOptions
    | UnexpectedArguments(token: Token)
    | BadText(error: Lexer.LexError)

  /** How reading stops; `Spins` is a reading that gets no further while the loop goes on. */
  datatype Stop =
    | Ended
    | Fails(failure: Failure)
    | Help
    | BundledHelp
    | Enter(command: Command, rest: seq<Token>)
    | Spins

  /** What one round of the loop does; a round that takes nothing leaves all its variables as they are. */
  datatype Step = Took(item: Item) | TookNothing | Stops(stop: Stop)

  // ----------------------------------------------------------------- one item

  /** Combined short flags: all of them switches. */
  function BundleFrom(args: seq<Argument>, letters: string): Stop {
    if letters == [] then Ended
    else
      match FindKeyword(args, letters[..1], true)
      case None => Fails(UnknownBundled(letters[0]))
      case Some(arg) =>
        if arg.isHelp then BundledHelp
        else if arg.kind != Flag then Fails(NotCombinable(letters[0]))
        else BundleFrom(args, letters[1..])
  }

  function BundleStep(args: seq<Argument>, letters: string): Step {
    var stop := BundleFrom(args, letters);
    if stop.Ended? then Took(Bundle(letters)) else Stops(stop)
  }

  function DynamicStep(kind: ArgType, flag: Token, more: seq<Token>): Step {
    if kind == Flag then Stops(Fails(BadDynamicKeywords))
    else if more == [] || IsFlag(more[0]) then Stops(Fails(RequiresValue(flag)))
    else if kind == Single then
      if ValueOf(more[0], Single, false).NoValue? then Stops(Fails(InvalidValue(flag)))
      else Took(Dynamic(flag, Single, more[..1]))
    else if RunOf(more) == [] then Stops(Fails(InvalidValue(flag)))
    else Took(Dynamic(flag, Multiple, RunOf(more)))
  }

  /** An option that was found, and its values. */
  function KeywordStep(arg: Argument, flag: Token, more: seq<Token>): Step {
    if arg.isHelp then Stops(Help)
    else if arg.isJson then Took(Keyword(flag, arg, []))
    else if arg.kind == Flag then
      var valued := more != [] && !IsFlag(more[0]) && !ValueOf(more[0], Flag, false).NoValue?;
      Took(Keyword(flag, arg, if valued then more[..1] else []))
    else if more == [] || IsFlag(more[0]) then Stops(Fails(RequiresValue(flag)))
    else if ValueOf(more[0], arg.kind, arg.coerceAsString).NoValue? then Stops(Fails(InvalidValue(flag)))
    else Took(Keyword(flag, arg, if arg.kind == Single then more[..1] else RunOf(more)))
  }

  function FlagStep(c: Command, flag: Token, more: seq<Token>): Step
    requires IsFlag(flag)
  {
    if flag.FlagShort? && |flag.name| > 1 then BundleStep(c.args, flag.name)
    else
      match FindKeyword(c.args, flag.name, flag.FlagShort?)
      case Some(arg) => KeywordStep(arg, flag, more)
      case None =>
        if flag.FlagLong? && c.dynamicKeywords.Some? then DynamicStep(c.dynamicKeywords.value, flag, more)
        else Stops(Fails(UnknownOption(flag)))
  }

  function PositionalStep(c: Command, ts: seq<Token>, pos: nat): Step
    requires ts != []
  {
    if pos >= |Positionals(c)| then Stops(Fails(UnexpectedArgument(ts[0])))
    else
      var arg := Positionals(c)[pos];
      if ValueOf(ts[0], arg.kind, arg.coerceAsString).NoValue? then Stops(Fails(InvalidPositional(arg.name)))
      else if arg.kind == Single then Took(Positional(arg, ts[..1]))
      else if arg.kind == Multiple then Took(Positional(arg, RunOf(ts)))
      else TookNothing
  }

  /** What the loop does with the next token, after so many positionals. */
  function NextItem(c: Command, ts: seq<Token>, pos: nat): Step
    requires ts != []
  {
    var t, more := ts[0], ts[1..];
    if t.DoubleMinus? then
      if c.passthrough then Took(Rest(more)) else Stops(Fails(UnexpectedDelimiter))
    else if IsFlag(t) then FlagStep(c, t, more)
    else if t.Id? && FindSubcommand(c.subs, t.name).Found? then
      Stops(Enter(FindSubcommand(c.subs, t.name).command, more))
    else if t.Id? && FindSubcommand(c.subs, t.name).Ambiguous? then Stops(Fails(AmbiguousAlias(t.name)))
    else if t.Id? && c.subs != [] && pos == 0 && !c.hasHandler then Stops(Fails(UnknownCommand(t.name)))
    else PositionalStep(c, ts, pos)
  }

  /** Every item is the front of what was read, and is not empty. */
  lemma {:induction false} ItemsAreFronts(c: Command, ts: seq<Token>, pos: nat)
    requires ts != [] && NextItem(c, ts, pos).Took?
    ensures var r := Render(NextItem(c, ts, pos).item); 0 < |r| <= |ts| && r == ts[..|r|]
  {
    hide ValueOf, FindKeyword, FindSubcommand, FlagStep, PositionalsOf, IsText;
    var t, more := ts[0], ts[1..];
    assert ts == [t] + more;
    if IsFlag(t) {
      FlagsAreFronts(c, t, more);
    } else if pos < |Positionals(c)| {
      SeveralAreText(t, Positionals(c)[pos].coerceAsString);
    }
  }

  lemma {:induction false} FlagsAreFronts(c: Command, flag: Token, more: seq<Token>)
    requires IsFlag(flag) && FlagStep(c, flag, more).Took?
    ensures var r := Render(FlagStep(c, flag, more).item); 0 < |r| <= |more| + 1 && r == ([flag] + more)[..|r|]
  {
    hide ValueOf, FindKeyword, BundleFrom, RunOf, IsText;
    var run := RunOf(more);
    assert ([flag] + more)[..1 + |run|] == [flag] + run;
    assert more != [] ==> ([flag] + more)[..2] == [flag] + more[..1];
    assert ([flag] + more)[..1] == [flag] + [];
  }

  // ---------------------------------------------------------------- all items

  datatype Reading = Reading(items: seq<Item>, stop: Stop)

  function Advance(item: Item): nat {
    if item.Positional? then 1 else 0
  }

  /** Items until the tokens are used up or reading stops. */
  function ReadAll(c: Command, ts: seq<Token>, pos: nat): Reading
    decreases |ts|
  {
    if ts == [] then Reading([], Ended)
    else
      match NextItem(c, ts, pos)
      case Stops(stop) => Reading([], stop)
      case TookNothing => Reading([], Spins)
      case Took(item) =>
        ItemsAreFronts(c, ts, pos);
        var more := ReadAll(c, ts[|Render(item)|..], pos + Advance(item));
        Reading([item] + more.items, more.stop)
  }

  // ----------------------------------------------------------------- meanings

  type Values = map<string, ArgValue>

  /** Later definitions of a name win. */
  function Defaults(args: seq<Argument>): Values {
    if args == [] then map[]
    else
      var last := args[|args| - 1];
      var before := Defaults(args[..|args| - 1]);
      if last.isHelp || last.isJson then before else before[last.name := last.defaultValue]
  }

  function ListSoFar(values: Values, name: string): seq<string> {
    if name in values && values[name].ListValue? then values[name].list else []
  }

  /** The value an option takes, from the one it has. */
  function KeywordValue(arg: Argument, ts: seq<Token>, values: Values): ArgValue {
    if arg.isJson || (arg.kind == Flag && ts == []) then BoolValue(true)
    else if ts == [] then NoValue
    else if arg.kind == Multiple then ListValue(ListSoFar(values, arg.name) + Texts(ts))
    else ValueOf(ts[0], arg.kind, arg.kind == Single && arg.coerceAsString)
  }

  function PositionalValue(arg: Argument, ts: seq<Token>): ArgValue {
    if ts == [] then NoValue
    else if arg.kind == Multiple then ListValue(Texts(ts))
    else ValueOf(ts[0], arg.kind, arg.coerceAsString)
  }

  /** The names combined flags switch on. */
  function BundleNames(args: seq<Argument>, letters: string): seq<string> {
    if letters == [] then []
    else
      var found := FindKeyword(args, letters[|letters| - 1..], true);
      BundleNames(args, letters[..|letters| - 1]) + if found.Some? then [found.value.name] else []
  }

  function SetAll(values: Values, names: seq<string>): Values {
    if names == [] then values
    else SetAll(values, names[..|names| - 1])[names[|names| - 1] := BoolValue(true)]
  }

  function Apply(c: Command, values: Values, item: Item): Values {
    match item
    case Bundle(letters) => SetAll(values, BundleNames(c.args, letters))
    case Keyword(_, arg, ts) => values[arg.name := KeywordValue(arg, ts, values)]
    case Positional(arg, ts) => values[arg.name := PositionalValue(arg, ts)]
    case _ => values
  }

  function ValuesAfter(c: Command, items: seq<Item>): Values {
    if items == [] then Defaults(c.args)
    else Apply(c, ValuesAfter(c, items[..|items| - 1]), items[|items| - 1])
  }

  function DynamicValue(kind: ArgType, ts: seq<Token>): ArgValue {
    if ts == [] then NoValue
    else if kind == Multiple then ListValue(Texts(ts))
    else ValueOf(ts[0], Single, false)
  }

  function DynamicAfter(items: seq<Item>): Values {
    if items == [] then map[]
    else
      var before, last := DynamicAfter(items[..|items| - 1]), items[|items| - 1];
      if last.Dynamic? && (last.flag.FlagLong? || last.flag.FlagShort?)
      then before[last.flag.name := DynamicValue(last.kind, last.values)] else before
  }

  /** The names an item makes seen. */
  function Names(c: Command, item: Item): set<string> {
    match item
    case Bundle(letters) => set n | n in BundleNames(c.args, letters)
    case Keyword(_, arg, _) => {arg.name}
    case _ => {}
  }

  function SeenAfter(c: Command, items: seq<Item>): set<string> {
    if items == [] then {}
    else SeenAfter(c, items[..|items| - 1]) + Names(c, items[|items| - 1])
  }

  function FilledAfter(items: seq<Item>): nat {
    if items == [] then 0 else FilledAfter(items[..|items| - 1]) + Advance(items[|items| - 1])
  }

  function Printed(ts: seq<Token>): (r: seq<string>)
    ensures |r| == |ts| && forall k :: 0 <= k < |r| ==> r[k] == Lexer.Print(ts[k])
  {
    if ts == [] then [] else Printed(ts[..|ts| - 1]) + [Lexer.Print(ts[|ts| - 1])]
  }

  function Passed(item: Item): seq<string> {
    if item.Rest? then Printed(item.tokens) else []
  }

  function PassthroughAfter(items: seq<Item>): seq<string> {
    if items == [] then [] else PassthroughAfter(items[..|items| - 1]) + Passed(items[|items| - 1])
  }

  // ------------------------------------------------------------------ the end

  function FirstMissing(args: seq<Argument>, seen: set<string>): (r: Option<string>)
    ensures r.None? <==>
            forall k :: 0 <= k < |args| ==> args[k].required && !args[k].positional && !args[k].isHelp ==>
              args[k].name in seen
  {
    if args == [] then None
    else if args[0].required && !args[0].positional && !args[0].isHelp && args[0].name !in seen then Some(args[0].name)
    else
      assert forall k :: 1 <= k < |args| ==> args[k] == args[1..][k - 1];
      FirstMissing(args[1..], seen)
  }

  function FirstUnfilled(ps: seq<Argument>): (r: Option<string>)
    ensures r.None? <==> forall k :: 0 <= k < |ps| ==> !ps[k].required
  {
    if ps == [] then None
    else if ps[0].required then Some(ps[0].name)
    else
      assert forall k :: 1 <= k < |ps| ==> ps[k] == ps[1..][k - 1];
      FirstUnfilled(ps[1..])
  }

  /** Two distinct options were seen and one of them names the other. */
  ghost predicate Conflicting(args: seq<Argument>, seen: set<string>) {
    exists k, i :: 0 <= k < |args| && 0 <= i < |args[k].conflictsWith| && Clash(args[k], i, seen)
  }

  predicate Clash(arg: Argument, i: nat, seen: set<string>)
    requires i < |arg.conflictsWith|
  {
    arg.name in seen && arg.conflictsWith[i] in seen && arg.name != arg.conflictsWith[i]
  }

  /** Positionals that got nothing take their defaults. */
  function WithDefaults(values: Values, ps: seq<Argument>): Values {
    if ps == [] then values
    else WithDefaults(values, ps[..|ps| - 1])[ps[|ps| - 1].name := ps[|ps| - 1].defaultValue]
  }

  datatype Status = Success | HelpRequested | ParseError(failure: Failure) | Stuck

  /** What a handler is called with. */
  datatype Invocation = Invocation(command: Command, args: Values, passthrough: seq<string>)

  datatype Outcome = Outcome(status: Status, calls: seq<Invocation>, passthrough: seq<string>, unread: seq<Token>)

  /** All hooks of the parser together: given the command and whether help is asked for. */
  type Hook = (Command, bool) -> bool

  function FinalValues(c: Command, items: seq<Item>): Values {
    var filled := FilledAfter(items);
    if filled <= |Positionals(c)| then WithDefaults(ValuesAfter(c, items), Positionals(c)[filled..])
    else ValuesAfter(c, items)
  }

  ghost function Finish(c: Command, items: seq<Item>, hook: Hook): Outcome {
    var seen, filled := SeenAfter(c, items), FilledAfter(items);
    var unfilled := if filled <= |Positionals(c)| then Positionals(c)[filled..] else [];
    var passed := PassthroughAfter(items);
    if FirstMissing(c.args, seen).Some? then Failed(MissingOption(FirstMissing(c.args, seen).value))
    else if FirstUnfilled(unfilled).Some? then Failed(MissingPositional(FirstUnfilled(unfilled).value))
    else if Conflicting(c.args, seen) then Failed(ConflictingOptions)
    else if c.hasHandler then
      if hook(c, false) then
        var call := Invocation(c, Merged(FinalValues(c, items), DynamicAfter(items)), passed);
        Outcome(Success, [call], passed, [])
      else Outcome(Success, [], passed, [])
    else if c.subs != [] && hook(c, true) then Outcome(HelpRequested, [], passed, [])
    else Outcome(Success, [], passed, [])
  }

  /** Dynamic values shadow declared ones. */
  function Merged(values: Values, dynamicValues: Values): Values {
    values + dynamicValues
  }

  function Failed(failure: Failure): Outcome {
    Outcome(ParseError(failure), [], [], [])
  }

  // -------------------------------------------------------------------- parse

  lemma {:induction false} EnterIsShorter(c: Command, ts: seq<Token>, pos: nat)
    ensures var stop := ReadAll(c, ts, pos).stop; stop.Enter? ==> |stop.rest| < |ts|
    decreases |ts|
  {
    hide NextItem;
    if ts != [] {
      match NextItem(c, ts, pos)
      case TookNothing =>
      case Stops(_) => EnterIsNext(c, ts, pos);
      case Took(item) =>
        ItemsAreFronts(c, ts, pos);
        EnterIsShorter(c, ts[|Render(item)|..], pos + Advance(item));
    }
  }

  lemma {:induction false} EnterIsNext(c: Command, ts: seq<Token>, pos: nat)
    requires ts != []
    ensures var s := NextItem(c, ts, pos);
            s.Stops? && s.stop.Enter? ==>
            s.stop.rest == ts[1..] && ts[0].Id? && FindSubcommand(c.subs, ts[0].name) == Found(s.stop.command)
  {
    hide FindSubcommand, ValueOf, PositionalsOf, FlagStep;
    if IsFlag(ts[0]) { FlagsEnterNothing(c, ts[0], ts[1..]); }
  }

  lemma {:induction false} FlagsEnterNothing(c: Command, flag: Token, more: seq<Token>)
    requires IsFlag(flag)
    ensures var s := FlagStep(c, flag, more); !s.TookNothing? && (s.Stops? ==>
              !s.stop.Enter? && !s.stop.Spins? && !s.stop.Ended?)
  {
    hide ValueOf, FindKeyword, RunOf, BundleFrom;
    if flag.FlagShort? { BundlesEnterNothing(c.args, flag.name); }
  }

  lemma {:induction false} BundlesEnterNothing(args: seq<Argument>, letters: string)
    ensures var s := BundleFrom(args, letters); !s.Enter? && !s.Spins? && !s.Help?
  {
    hide FindKeyword;
    if letters != [] { BundlesEnterNothing(args, letters[1..]); }
  }

  /** What a command makes of the tokens from its name on. */
  ghost function Parse(c: Command, ts: seq<Token>, hook: Hook): Outcome
    decreases |ts|
  {
    var reading := ReadAll(c, ts, 0);
    match reading.stop
    case Ended => Finish(c, reading.items, hook)
    case Fails(failure) => Failed(failure)
    case BundledHelp => Outcome(HelpRequested, [], [], [])
    case Help =>
      if hook(c, true) then Outcome(HelpRequested, [], [], [])
      else Outcome(Success, [], PassthroughAfter(reading.items), Left(c, ts, 0))
    case Spins => Outcome(Stuck, [], [], [])
    case Enter(sub, rest) => EnterIsShorter(c, ts, 0); Parse(sub, rest, hook)
  }

  /** The tokens reading stopped at. */
  function Left(c: Command, ts: seq<Token>, pos: nat): seq<Token>
    decreases |ts|
  {
    if ts == [] then []
    else
      match NextItem(c, ts, pos)
      case Stops(_) => ts
      case TookNothing => ts
      case Took(item) => ItemsAreFronts(c, ts, pos); Left(c, ts[|Render(item)|..], pos + Advance(item))
  }
}
