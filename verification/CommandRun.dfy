/**
 * The parser as it runs: one object per command, with a place in the token list and the values
 * collected so far. The items read so far are kept beside the real state, which they determine.
 */
module CommandRun {
  import opened Native
  import Lexer
  import opened Commands
  import opened CommandLaws
  import opened CommandTermination

  // ----------------------------------------------------------------- beginnings

  method DefaultValues(args: seq<Argument>) returns (values: Values)
    ensures values == Defaults(args)
  {
    values := map[];
    for i := 0 to |args|
      invariant values == Defaults(args[..i])
    {
      assert args[..i + 1][..i] == args[..i];
      if !args[i].isHelp && !args[i].isJson {
        values := values[args[i].name := args[i].defaultValue];
      }
    }
    assert args[..|args|] == args;
  }

  method CollectPositionals(args: seq<Argument>) returns (ps: seq<Argument>)
    ensures ps == PositionalsOf(args)
  {
    ps := [];
    assert args[0..] == args;
    for i := 0 to |args|
      invariant PositionalsOf(args) == ps + PositionalsOf(args[i..])
    {
      assert args[i..][1..] == args[i + 1..];
      if args[i].positional && !args[i].isHelp && !args[i].isJson {
        ps := ps + [args[i]];
      }
    }
    assert args[|args|..] == [];
  }

  // ------------------------------------------------------------ appended items

  lemma {:induction false} AppendedState(c: Command, items: seq<Item>, item: Item)
    ensures ValuesAfter(c, items + [item]) == Apply(c, ValuesAfter(c, items), item)
    ensures SeenAfter(c, items + [item]) == SeenAfter(c, items) + Names(c, item)
    ensures FilledAfter(items + [item]) == FilledAfter(items) + Advance(item)
  {
    hide Apply, Names;
    assert (items + [item])[..|items|] == items;
  }

  lemma {:induction false} AppendedRest(items: seq<Item>, item: Item)
    ensures PassthroughAfter(items + [item]) ==
            if item.Rest? then PassthroughAfter(items) + Printed(item.tokens) else PassthroughAfter(items)
    ensures DynamicAfter(items + [item]) ==
            if item.Dynamic? && (item.flag.FlagLong? || item.flag.FlagShort?)
            then DynamicAfter(items)[item.flag.name := DynamicValue(item.kind, item.values)] else DynamicAfter(items)
  {
    hide Printed, DynamicValue;
    assert (items + [item])[..|items|] == items;
  }

  // ------------------------------------------------------------------- one run

  class Run {
    const command: Command
    const positionals: seq<Argument>
    const tokens: seq<Token>
    var index: nat
    var values: Values
    var dynamicValues: Values
    var seen: set<string>
    var filled: nat
    var passthrough: seq<string>
    ghost var items: seq<Item>

    ghost predicate Placed()
      reads this
    {
      index <= |tokens| && positionals == Positionals(command)
    }

    /** The state is what the items make it. */
    ghost predicate Valid()
      reads this
    {
      Placed() && values == ValuesAfter(command, items) && dynamicValues == DynamicAfter(items)
      && seen == SeenAfter(command, items) && filled == FilledAfter(items) && passthrough == PassthroughAfter(items)
    }

    constructor (c: Command, ts: seq<Token>, start: nat, ps: seq<Argument>, defaults: Values)
      requires start <= |ts| && ps == Positionals(c) && defaults == Defaults(c.args)
      ensures Valid() && command == c && tokens == ts && index == start && items == []
    {
      command, positionals, tokens, index := c, ps, ts, start;
      values, dynamicValues, seen, filled, passthrough := defaults, map[], {}, 0, [];
      items := [];
    }

    ghost predicate Grown(before: seq<Item>, item: Item)
      reads this
    {
      Valid() && items == before + [item]
    }

    /** Values until a flag, the delimiter or the end. */
    method TakeValues() returns (texts: seq<string>)
      requires Placed()
      modifies this`index
      ensures Placed() && index == old(index) + |RunOf(tokens[old(index)..])|
      ensures texts == Texts(RunOf(tokens[old(index)..]))
    {
      hide RunOf, Texts, ValueOf, PositionalsOf;
      texts := [];
      var start := index;
      NoTexts();
      assert tokens[start..start] == [];
      while index < |tokens| && !IsFlag(tokens[index]) && IsText(tokens[index])
        invariant Placed() && start <= index
        invariant |RunOf(tokens[start..])| == index - start + |RunOf(tokens[index..])|
        invariant texts == Texts(tokens[start..index])
      {
        RunStep(tokens, index);
        TextsStep(tokens, start, index);
        texts := texts + [TextOf(tokens[index])];
        index := index + 1;
      }
      RunStep(tokens, index);
      assert tokens[start..][..index - start] == tokens[start..index];
    }

    // ---------------------------------------------------------------- delimiter

    method TakeRest()
      requires Valid() && index < |tokens|
      modifies this
      ensures index == |tokens| && Grown(old(items), Rest(tokens[old(index) + 1..]))
    {
      hide Printed, PositionalsOf, ValuesAfter, SeenAfter, FilledAfter, DynamicAfter, PassthroughAfter;
      ghost var item := Rest(tokens[index + 1..]);
      AppendedState(command, items, item);
      AppendedRest(items, item);
      items := items + [item];
      index := index + 1;
      ghost var before, start := passthrough, index;
      NothingPrinted();
      while index < |tokens|
        invariant start <= index <= |tokens|
        invariant passthrough == before + Printed(tokens[start..index])
        modifies this`index, this`passthrough
      {
        PrintedStep(tokens, start, index);
        passthrough := passthrough + [Lexer.Print(tokens[index])];
        index := index + 1;
      }
      assert tokens[start..index] == tokens[start..];
    }

    // ----------------------------------------------------------- combined flags

    method TakeBundle(letters: string) returns (stop: Stop)
      requires Valid() && index < |tokens| && tokens[index] == Lexer.FlagShort(letters)
      modifies this
      ensures stop == BundleFrom(command.args, letters)
      ensures stop.Ended? ==> index == old(index) + 1 && Grown(old(items), Bundle(letters))
    {
      hide FindKeyword, PositionalsOf, ValuesAfter, SeenAfter, FilledAfter, DynamicAfter, PassthroughAfter,
        BundleNames, SetAll;
      AppendedState(command, items, Bundle(letters));
      AppendedRest(items, Bundle(letters));
      index := index + 1;
      ghost var startValues, startSeen := values, seen;
      NoLetters(command.args, values);
      assert letters[0..] == letters;
      for i := 0 to |letters|
        invariant BundleFrom(command.args, letters) == BundleFrom(command.args, letters[i..])
        invariant values == SetAll(startValues, BundleNames(command.args, letters[..i]))
        invariant seen == startSeen + set n | n in BundleNames(command.args, letters[..i])
        modifies this`values, this`seen
      {
        var found := FindKeyword(command.args, letters[i..i + 1], true);
        LetterStep(command.args, letters, i);
        if found.None? { return Fails(UnknownBundled(letters[i])); }
        if found.value.isHelp { return BundledHelp; }
        if found.value.kind != Flag { return Fails(NotCombinable(letters[i])); }
        BundleGrows(command.args, letters, i, startValues);
        seen := seen + {found.value.name};
        values := values[found.value.name := BoolValue(true)];
      }
      assert letters[..|letters|] == letters && letters[|letters|..] == [];
      items := items + [Bundle(letters)];
      stop := Ended;
    }

    // -------------------------------------------------------------------- options

    /** What a step of the loop must come to. */
    ghost predicate Did(step: Step, stop: Option<Stop>, before: seq<Item>, start: nat)
      reads this
    {
      match step
      case Took(item) => stop == None && Grown(before, item) && index == start + |Render(item)|
      case TookNothing => stop == None && Valid() && items == before && index == start
      case Stops(s) => stop == Some(s) && ((s.Help? || s.Enter?) ==>
        Valid() && items == before && index == start + if s.Enter? then 1 else 0)
    }

    /** Takes an option's item into the account, once its tokens have been passed. */
    method Record(flag: Token, arg: Argument, ghost ts: seq<Token>, value: ArgValue)
      requires Valid() && value == KeywordValue(arg, ts, values)
      modifies this`values, this`seen, this`items
      ensures Grown(old(items), Keyword(flag, arg, ts))
    {
      hide KeywordValue, PositionalsOf, ValuesAfter, SeenAfter, FilledAfter, DynamicAfter, PassthroughAfter;
      ghost var item := Keyword(flag, arg, ts);
      AppendedState(command, items, item);
      AppendedRest(items, item);
      seen := seen + {arg.name};
      values := values[arg.name := value];
      items := items + [item];
    }

    /** An option was found: its flag is consumed, then its values. */
    method TakeKeyword(arg: Argument) returns (stop: Option<Stop>)
      requires Valid() && index < |tokens|
      modifies this
      ensures Did(KeywordStep(arg, tokens[old(index)], tokens[old(index) + 1..]), stop, old(items), old(index))
    {
      hide ValueOf, RunOf, Texts, ListSoFar, IsText, PositionalsOf, ValuesAfter, SeenAfter, FilledAfter,
        DynamicAfter, PassthroughAfter;
      var flag := tokens[index];
      ghost var more := tokens[index + 1..];
      if arg.isHelp { return Some(Help); }
      index := index + 1;
      stop := None;
      if arg.isJson {
        Record(flag, arg, [], BoolValue(true));
      } else if arg.kind == Flag {
        if index < |tokens| && !IsFlag(tokens[index]) && !ValueOf(tokens[index], Flag, false).NoValue? {
          index := index + 1;
          Record(flag, arg, more[..1], ValueOf(tokens[index - 1], Flag, false));
        } else {
          Record(flag, arg, [], BoolValue(true));
        }
      } else if index >= |tokens| || IsFlag(tokens[index]) {
        stop := Some(Fails(RequiresValue(flag)));
      } else if ValueOf(tokens[index], arg.kind, arg.coerceAsString).NoValue? {
        stop := Some(Fails(InvalidValue(flag)));
      } else if arg.kind == Single {
        index := index + 1;
        Record(flag, arg, more[..1], ValueOf(tokens[index - 1], Single, arg.coerceAsString));
      } else {
        FirstOfRun(more, arg.coerceAsString);
        var soFar := if arg.name in values && values[arg.name].ListValue? then values[arg.name].list else [];
        SoFar(values, arg.name);
        var texts := TakeValues();
        Record(flag, arg, RunOf(more), ListValue(soFar + texts));
      }
    }

    /** A long flag nobody declared, where such are allowed. */
    method TakeDynamic(kind: ArgType) returns (stop: Option<Stop>)
      requires Valid() && index < |tokens| && tokens[index].FlagLong?
      modifies this
      ensures Did(DynamicStep(kind, tokens[old(index)], tokens[old(index) + 1..]), stop, old(items), old(index))
    {
      hide ValueOf, RunOf, Texts, IsText, PositionalsOf, ValuesAfter, SeenAfter, FilledAfter, DynamicAfter,
        PassthroughAfter;
      var flag := tokens[index];
      ghost var more := tokens[index + 1..];
      index := index + 1;
      stop := None;
      var value := NoValue;
      ghost var ts := [];
      if kind == Flag { return Some(Fails(BadDynamicKeywords)); }
      if index >= |tokens| || IsFlag(tokens[index]) { return Some(Fails(RequiresValue(flag))); }
      if kind == Single {
        value := ValueOf(tokens[index], Single, false);
        if value.NoValue? { return Some(Fails(InvalidValue(flag))); }
        ts := more[..1];
        index := index + 1;
      } else {
        var texts := TakeValues();
        if texts == [] { return Some(Fails(InvalidValue(flag))); }
        value, ts := ListValue(texts), RunOf(more);
      }
      ghost var item := Dynamic(flag, kind, ts);
      AppendedState(command, items, item);
      AppendedRest(items, item);
      dynamicValues := dynamicValues[flag.name := value];
      items := items + [item];
    }

    method TakeFlag() returns (stop: Option<Stop>)
      requires Valid() && index < |tokens| && IsFlag(tokens[index])
      modifies this
      ensures Did(FlagStep(command, tokens[old(index)], tokens[old(index) + 1..]), stop, old(items), old(index))
    {
      hide FindKeyword, KeywordStep, DynamicStep, BundleFrom, Valid;
      var flag := tokens[index];
      if flag.FlagShort? && |flag.name| > 1 {
        var end := TakeBundle(flag.name);
        BundlesEnterNothing(command.args, flag.name);
        stop := if end.Ended? then None else Some(end);
      } else {
        var found := FindKeyword(command.args, flag.name, flag.FlagShort?);
        if found.Some? {
          stop := TakeKeyword(found.value);
        } else if flag.FlagLong? && command.dynamicKeywords.Some? {
          stop := TakeDynamic(command.dynamicKeywords.value);
        } else {
          stop := Some(Fails(UnknownOption(flag)));
        }
      }
    }

    // ---------------------------------------------------------------- positionals

    method TakePositional() returns (stop: Option<Stop>)
      requires Valid() && index < |tokens| && !IsFlag(tokens[index])
      modifies this
      ensures Did(PositionalStep(command, tokens[old(index)..], old(filled)), stop, old(items), old(index))
    {
      hide ValueOf, RunOf, Texts, IsText, PositionalsOf, ValuesAfter, SeenAfter, FilledAfter, DynamicAfter,
        PassthroughAfter;
      var t := tokens[index];
      ghost var ts := tokens[index..];
      stop := None;
      if filled >= |positionals| { return Some(Fails(UnexpectedArgument(t))); }
      var arg := positionals[filled];
      var value := ValueOf(t, arg.kind, arg.coerceAsString);
      if value.NoValue? { return Some(Fails(InvalidPositional(arg.name))); }
      if arg.kind == Flag { return; }
      ghost var taken := ts[..1];
      if arg.kind == Single {
        index := index + 1;
      } else {
        FirstOfRun(ts, arg.coerceAsString);
        var texts := TakeValues();
        value, taken := ListValue(texts), RunOf(ts);
      }
      ghost var item := Positional(arg, taken);
      AppendedState(command, items, item);
      AppendedRest(items, item);
      values := values[arg.name := value];
      filled := filled + 1;
      items := items + [item];
    }

    // ------------------------------------------------------------------- the loop

    /** The loop's variables, as far as they decide what it does next. */
    ghost function State(): Loop
      requires Placed()
      reads this
    {
      Loop(command, tokens[index..], items)
    }

    /** One round of the loop. */
    method TakeItem() returns (stop: Option<Stop>)
      requires Valid() && index < |tokens|
      modifies this
      ensures Did(NextItem(command, tokens[old(index)..], old(filled)), stop, old(items), old(index))
      ensures stop.None? ==> Valid() && State() == Round(old(State()))
    {
      hide FlagStep, PositionalStep, FindSubcommand, Valid, Round;
      PlaceOf();
      RoundFrom(State());
      ghost var ts := tokens[index..];
      var t := tokens[index];
      assert tokens[index..][1..] == tokens[index + 1..];
      stop := None;
      if t.DoubleMinus? {
        if !command.passthrough { return Some(Fails(UnexpectedDelimiter)); }
        TakeRest();
      } else if IsFlag(t) {
        stop := TakeFlag();
      } else {
        if t.Id? {
          var found := FindSubcommand(command.subs, t.name);
          if found.Ambiguous? { return Some(Fails(AmbiguousAlias(t.name))); }
          if found.Found? {
            StepOver();
            return Some(Enter(found.command, tokens[index..]));
          }
          if command.subs != [] && filled == 0 && !command.hasHandler { return Some(Fails(UnknownCommand(t.name))); }
        }
        stop := TakePositional();
      }
    }

    lemma {:induction false} PlaceOf()
      requires Valid()
      ensures Placed() && index <= |tokens| && filled == FilledAfter(items)
    {
    }

    method StepOver()
      requires Valid() && index < |tokens|
      modifies this`index
      ensures Valid() && index == old(index) + 1
    {
      index := index + 1;
    }

    /** The loop until it stops or the tokens are used up. */
    method ReadTokens() returns (stop: Stop)
      requires Valid() && items == []
      modifies this
      ensures var r := ReadAll(command, tokens[old(index)..], 0);
              stop == r.stop && (stop.Ended? || stop.Help? || stop.Enter? || stop.Spins? ==>
                Valid() && items == r.items)
      ensures stop.Ended? || stop.Help? || stop.Spins? ==> tokens[index..] == Left(command, tokens[old(index)..], 0)
      ensures stop.Spins? ==> tokens[index..] != [] && NextItem(command, tokens[index..], filled) == TookNothing
      ensures stop.Enter? ==> old(index) < index <= |tokens| && tokens[index..] == stop.rest
    {
      hide Valid, NextItem, ReadAll, Left, RenderAll, Render, ContinuesFrom;
      PlaceOf();
      NothingFilled();
      ghost var all := tokens[index..];
      var start := index;
      ContinuesFirst(command, all);
      while index < |tokens|
        invariant Valid() && start <= index <= |tokens| && filled == FilledAfter(items)
        invariant ContinuesFrom(command, all, items, tokens[index..], filled)
        decreases |tokens| - index
      {
        ghost var ts, before, pos := tokens[index..], items, filled;
        var at := index;
        var ended := TakeItem();
        if ended.Some? {
          StopsReading(command, all, before, ts, pos);
          return ended.value;
        }
        PlaceOf();
        if index == at {
          // Nothing has changed and nothing will: the original loop goes round for ever from here.
          NothingTaken(command, ts, pos);
          StopsReading(command, all, before, ts, pos);
          return Spins;
        }
        Continued(command, all, before, ts, pos);
        assert tokens[index..] == ts[index - at..];
      }
      assert tokens[index..] == [];
      StopsReading(command, all, items, [], filled);
      stop := Ended;
    }
  }

  // --------------------------------------------------------------------- checks

  /** The first required option that was not seen. */
  method MissingOption(args: seq<Argument>, seen: set<string>) returns (r: Option<string>)
    ensures r == FirstMissing(args, seen)
  {
    assert args[0..] == args;
    for i := 0 to |args|
      invariant FirstMissing(args, seen) == FirstMissing(args[i..], seen)
    {
      assert args[i..][1..] == args[i + 1..];
      if args[i].required && !args[i].positional && !args[i].isHelp && args[i].name !in seen {
        return Some(args[i].name);
      }
    }
    assert args[|args|..] == [];
    r := None;
  }

  /** Positionals that got nothing take their defaults, unless one of them is required. */
  method FillPositionals(ps: seq<Argument>, filled: nat, start: Values) returns (r: Option<string>, values: Values)
    requires filled <= |ps|
    ensures r == FirstUnfilled(ps[filled..])
    ensures r.None? ==> values == WithDefaults(start, ps[filled..])
  {
    hide FirstUnfilled, WithDefaults;
    values := start;
    NoneUnfilled(ps, filled, start);
    for i := filled to |ps|
      invariant FirstUnfilled(ps[filled..]) == FirstUnfilled(ps[i..])
      invariant values == WithDefaults(start, ps[filled..i])
    {
      UnfilledStep(ps, filled, i, start);
      if ps[i].required { return Some(ps[i].name), values; }
      values := values[ps[i].name := ps[i].defaultValue];
    }
    assert ps[filled..|ps|] == ps[filled..];
    r := None;
  }

  lemma {:induction false} NoneUnfilled(ps: seq<Argument>, filled: nat, start: Values)
    requires filled <= |ps|
    ensures WithDefaults(start, ps[filled..filled]) == start && FirstUnfilled(ps[|ps|..]) == None
  {
    assert ps[filled..filled] == [] && ps[|ps|..] == [];
  }

  lemma {:induction false} UnfilledStep(ps: seq<Argument>, filled: nat, i: nat, start: Values)
    requires filled <= i < |ps|
    ensures FirstUnfilled(ps[i..]) == if ps[i].required then Some(ps[i].name) else FirstUnfilled(ps[i + 1..])
    ensures WithDefaults(start, ps[filled..i + 1]) ==
            WithDefaults(start, ps[filled..i])[ps[i].name := ps[i].defaultValue]
  {
    assert ps[i..][1..] == ps[i + 1..];
    assert ps[filled..i + 1][..i - filled] == ps[filled..i];
  }

  ghost predicate ConflictsBefore(args: seq<Argument>, seen: set<string>, i: nat) {
    exists k, n :: 0 <= k < |args| && k < i && 0 <= n < |args[k].conflictsWith| && Clash(args[k], n, seen)
  }

  ghost predicate ClashBefore(arg: Argument, seen: set<string>, i: nat) {
    exists n :: 0 <= n < |arg.conflictsWith| && n < i && Clash(arg, n, seen)
  }

  method HasConflict(args: seq<Argument>, seen: set<string>) returns (found: bool)
    ensures found <==> Conflicting(args, seen)
  {
    hide Clash;
    found := false;
    for i := 0 to |args|
      invariant found <==> ConflictsBefore(args, seen, i)
    {
      var clash := false;
      for n := 0 to |args[i].conflictsWith|
        invariant clash <==> ClashBefore(args[i], seen, n)
      {
        var hit := Clashes(args[i], n, seen);
        clash := clash || hit;
      }
      found := found || clash;
    }
  }

  method Clashes(arg: Argument, n: nat, seen: set<string>) returns (r: bool)
    requires n < |arg.conflictsWith|
    ensures r == Clash(arg, n, seen)
  {
    r := arg.name in seen && arg.conflictsWith[n] in seen && arg.conflictsWith[n] != arg.name;
  }

  // ---------------------------------------------------------------------- parse

  /** The checks after the loop, and the handler. */
  method Conclude(run: Run, hook: Hook) returns (status: Status, calls: seq<Invocation>)
    requires run.Valid() && run.filled <= |run.positionals|
    ensures var spec := Finish(run.command, run.items, hook);
            status == spec.status && calls == spec.calls
            && (status.Success? ==> run.passthrough == spec.passthrough && spec.unread == [])
  {
    hide FirstMissing, FirstUnfilled, Conflicting, WithDefaults, PositionalsOf, ValuesAfter, SeenAfter, FilledAfter,
      DynamicAfter, PassthroughAfter;
    calls := [];
    var c := run.command;
    var missing := MissingOption(c.args, run.seen);
    if missing.Some? { return ParseError(Failure.MissingOption(missing.value)), []; }
    var unfilled, values := FillPositionals(run.positionals, run.filled, run.values);
    if unfilled.Some? { return ParseError(MissingPositional(unfilled.value)), []; }
    var conflict := HasConflict(c.args, run.seen);
    if conflict { return ParseError(ConflictingOptions), []; }
    status := Success;
    if c.hasHandler {
      if hook(c, false) { calls := [Invocation(c, values + run.dynamicValues, run.passthrough)]; }
    } else if c.subs != [] && hook(c, true) {
      status := HelpRequested;
    }
  }

  /** A command reads the tokens from a place on; a subcommand takes over from its name. */
  method ParseCommand(c: Command, tokens: seq<Token>, start: nat, hook: Hook)
    returns (status: Status, next: nat, calls: seq<Invocation>, passthrough: seq<string>)
    requires start <= |tokens|
    ensures var spec := Parse(c, tokens[start..], hook);
            status == spec.status && calls == spec.calls
            && (status.Success? ==>
                  next <= |tokens| && passthrough == spec.passthrough && tokens[next..] == spec.unread)
    decreases |tokens| - start
  {
    hide Run.Valid, ReadAll, Left, Finish, PositionalsOf, Defaults, PassthroughAfter;
    var ps := CollectPositionals(c.args);
    var defaults := DefaultValues(c.args);
    var run := new Run(c, tokens, start, ps, defaults);
    var stop := run.ReadTokens();
    ReadingConserves(c, tokens[start..], 0);
    next, calls, passthrough := run.index, [], run.passthrough;
    match stop
    case Ended =>
      FilledFits(run, tokens[start..]);
      status, calls := Conclude(run, hook);
    case Fails(failure) => status := ParseError(failure);
    case BundledHelp => status := HelpRequested;
    case Help =>
      StateOf(run);
      status := if hook(c, true) then HelpRequested else Success;
    case Spins => status := Stuck;
    case Enter(sub, _) =>
      status, next, calls, passthrough := ParseCommand(sub, tokens, run.index, hook);
  }

  lemma {:induction false} StateOf(run: Run)
    requires run.Valid()
    ensures run.index <= |run.tokens| && run.passthrough == PassthroughAfter(run.items)
  {
  }

  lemma {:induction false} FilledFits(run: Run, ts: seq<Token>)
    requires run.Valid() && run.items == ReadAll(run.command, ts, 0).items
    ensures run.filled <= |run.positionals| && run.index <= |run.tokens|
  {
    hide ReadAll, FilledAfter, PositionalsOf, PositionalItems;
    ReadInOrder(run.command, ts, 0);
    FilledCounts(run.items);
  }

  ghost predicate ContinuesFrom(c: Command, all: seq<Token>, items: seq<Item>, rest: seq<Token>, pos: nat) {
    var r, more := ReadAll(c, all, 0), ReadAll(c, rest, pos);
    r.items == items + more.items && r.stop == more.stop && Left(c, all, 0) == Left(c, rest, pos)
  }

  lemma {:induction false} ContinuesFirst(c: Command, all: seq<Token>)
    ensures ContinuesFrom(c, all, [], all, 0)
  {
    hide ReadAll, Left;
  }

  /** A round that takes no item decides how the reading of all ends. */
  lemma {:induction false} StopsReading(c: Command, all: seq<Token>, items: seq<Item>, ts: seq<Token>, pos: nat)
    requires ContinuesFrom(c, all, items, ts, pos) && (ts == [] || !NextItem(c, ts, pos).Took?)
    ensures var stop := if ts == [] then Ended else StopOf(NextItem(c, ts, pos));
            && ReadAll(c, all, 0) == Reading(items, stop) && Left(c, all, 0) == ts && (stop.Ended? <==> ts == [])
            && (stop.Enter? ==> ts != [] && stop.rest == ts[1..])
            && (stop.Spins? ==> ts != [] && NextItem(c, ts, pos) == TookNothing)
  {
    hide NextItem, ReadAll, Left, RenderAll;
    ReadNone(c, ts, pos);
    assert items + [] == items;
    if ts != [] {
      EnterIsNext(c, ts, pos);
      NoStopSpins(c, ts, pos);
    }
  }

  lemma {:induction false} Continued(c: Command, all: seq<Token>, items: seq<Item>, ts: seq<Token>, pos: nat)
    requires ContinuesFrom(c, all, items, ts, pos) && ts != [] && NextItem(c, ts, pos).Took?
    ensures var item := NextItem(c, ts, pos).item;
            |Render(item)| <= |ts| && ContinuesFrom(c, all, items + [item], ts[|Render(item)|..], pos + Advance(item))
  {
    hide NextItem, ReadAll, Left, RenderAll, Render;
    ReadOne(c, ts, pos);
  }

  /** A round that took an item has moved on. */
  lemma {:induction false} NothingTaken(c: Command, ts: seq<Token>, pos: nat)
    requires ts != [] && (NextItem(c, ts, pos).Took? ==> |Render(NextItem(c, ts, pos).item)| == 0)
    ensures !NextItem(c, ts, pos).Took?
  {
    hide NextItem, Render;
    if NextItem(c, ts, pos).Took? { ItemsAreFronts(c, ts, pos); }
  }

  lemma {:induction false} NothingFilled()
    ensures FilledAfter([]) == 0
  {
  }

  lemma {:induction false} SoFar(values: Values, name: string)
    ensures ListSoFar(values, name) == if name in values && values[name].ListValue? then values[name].list else []
  {
  }

  /** A run begins with the value that was looked at. */
  lemma {:induction false} FirstOfRun(ts: seq<Token>, coerce: bool)
    requires ts != [] && !IsFlag(ts[0]) && !ValueOf(ts[0], Multiple, coerce).NoValue?
    ensures RunOf(ts) != []
  {
    SeveralAreText(ts[0], coerce);
  }

  lemma {:induction false} NoTexts()
    ensures Texts([]) == []
  {
  }

  lemma {:induction false} TextsStep(ts: seq<Token>, i: nat, j: nat)
    requires i <= j < |ts|
    ensures Texts(ts[i..j + 1]) == Texts(ts[i..j]) + [TextOf(ts[j])]
  {
    hide TextOf;
    assert ts[i..j + 1][..j - i] == ts[i..j];
  }

  lemma {:induction false} RunStep(ts: seq<Token>, i: nat)
    requires i <= |ts|
    ensures RunOf(ts[i..]) ==
            if i < |ts| && !IsFlag(ts[i]) && IsText(ts[i]) then [ts[i]] + RunOf(ts[i + 1..]) else []
  {
    hide IsText, IsFlag;
    if i < |ts| { assert ts[i..][1..] == ts[i + 1..]; }
  }

  lemma {:induction false} NothingPrinted()
    ensures Printed([]) == []
  {
  }

  lemma {:induction false} PrintedStep(ts: seq<Token>, i: nat, j: nat)
    requires i <= j < |ts|
    ensures Printed(ts[i..j + 1]) == Printed(ts[i..j]) + [Lexer.Print(ts[j])]
  {
    hide Lexer.Print;
    assert ts[i..j + 1][..j - i] == ts[i..j];
  }

  lemma {:induction false} NoLetters(args: seq<Argument>, values: Values)
    ensures BundleNames(args, []) == [] && SetAll(values, []) == values
  {
  }

  /** One letter of combined flags. */
  lemma {:induction false} LetterStep(args: seq<Argument>, letters: string, i: nat)
    requires i < |letters|
    ensures var found := FindKeyword(args, letters[i..i + 1], true);
            BundleFrom(args, letters[i..]) ==
            if found.None? then Fails(UnknownBundled(letters[i]))
            else if found.value.isHelp then BundledHelp
            else if found.value.kind != Flag then Fails(NotCombinable(letters[i]))
            else BundleFrom(args, letters[i + 1..])
  {
    hide FindKeyword;
    assert letters[i..][..1] == letters[i..i + 1] && letters[i..][1..] == letters[i + 1..];
  }

  lemma {:induction false} BundleGrows(args: seq<Argument>, letters: string, i: nat, values: Values)
    requires i < |letters| && FindKeyword(args, letters[i..i + 1], true).Some?
    ensures var name := FindKeyword(args, letters[i..i + 1], true).value.name;
            var before, after := BundleNames(args, letters[..i]), BundleNames(args, letters[..i + 1]);
            SetAll(values, after) == SetAll(values, before)[name := BoolValue(true)]
            && (set n | n in after) == (set n | n in before) + {name}
  {
    hide FindKeyword;
    assert letters[..i + 1][..i] == letters[..i] && letters[..i + 1][i..] == letters[i..i + 1];
    var before := BundleNames(args, letters[..i]);
    var name := FindKeyword(args, letters[i..i + 1], true).value.name;
    assert BundleNames(args, letters[..i + 1]) == before + [name];
    assert (before + [name])[..|before|] == before;
  }
}
