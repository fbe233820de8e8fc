/**
 * When the parsing loop ends. A positional declared as a flag is looked at but never consumed, so a
 * parse that comes to one with a usable token goes round for ever; these are the only endless parses.
 */
module CommandTermination {
  import opened Native
  import Lexer
  import opened Commands
  import opened CommandLaws

  // ------------------------------------------------------------------- the loop

  /** The parsing loops of a command and of the subcommands it hands over to, between two rounds. */
  datatype Loop =
    | Loop(command: Command, rest: seq<Token>, items: seq<Item>)
    | Over(stop: Stop)

  function Begin(c: Command, ts: seq<Token>): Loop {
    Loop(c, ts, [])
  }

  /** One round. */
  function Round(s: Loop): Loop {
    if s.Over? then s
    else if s.rest == [] then Over(Ended)
    else
      match NextItem(s.command, s.rest, FilledAfter(s.items))
      case Took(item) =>
        ItemsAreFronts(s.command, s.rest, FilledAfter(s.items));
        Loop(s.command, s.rest[|Render(item)|..], s.items + [item])
      case TookNothing => s
      case Stops(stop) => if stop.Enter? then Begin(stop.command, stop.rest) else Over(stop)
  }

  function Rounds(s: Loop, n: nat): Loop
    decreases n
  {
    if n == 0 then s else Rounds(Round(s), n - 1)
  }

  lemma {:induction false} RoundFrom(s: Loop)
    requires s.Loop? && s.rest != []
    ensures var step := NextItem(s.command, s.rest, FilledAfter(s.items));
            && (step.Took? ==> |Render(step.item)| <= |s.rest|
                               && Round(s) == Loop(s.command, s.rest[|Render(step.item)|..], s.items + [step.item]))
            && (step.TookNothing? ==> Round(s) == s)
  {
    hide NextItem, FilledAfter, Render;
    var pos := FilledAfter(s.items);
    if NextItem(s.command, s.rest, pos).Took? { ItemsAreFronts(s.command, s.rest, pos); }
  }

  /** A round either leaves the loop, or uses up tokens, or leaves everything as it was. */
  lemma {:induction false} RoundMoves(s: Loop)
    requires s.Loop? && Round(s).Loop?
    ensures s.rest != []
    ensures if NextItem(s.command, s.rest, FilledAfter(s.items)).TookNothing? then Round(s) == s
            else |Round(s).rest| < |s.rest|
  {
    hide NextItem, FilledAfter, Render;
    if s.rest != [] {
      var pos := FilledAfter(s.items);
      if NextItem(s.command, s.rest, pos).Took? { ItemsAreFronts(s.command, s.rest, pos); }
      EnterIsNext(s.command, s.rest, pos);
    }
  }

  lemma {:induction false} SameForEver(s: Loop, n: nat)
    requires Round(s) == s
    ensures Rounds(s, n) == s
  {
    hide Round;
    if n > 0 { SameForEver(s, n - 1); }
  }

  lemma {:induction false} OverForGood(s: Loop, n: nat, m: nat)
    requires n <= m && Rounds(s, n).Over?
    ensures Rounds(s, m).Over?
    decreases n
  {
    if n > 0 { OverForGood(Round(s), n - 1, m - 1); } else { SameForEver(s, m); }
  }

  /** Whether the reading from here on ends up taking nothing. */
  function Doomed(c: Command, ts: seq<Token>, pos: nat): bool {
    var stop := ReadAll(c, ts, pos).stop;
    if stop.Enter? then Land(stop.command, stop.rest).stop.Spins? else stop.Spins?
  }

  lemma {:induction false} DoomedFromStart(c: Command, ts: seq<Token>)
    ensures Doomed(c, ts, 0) == Land(c, ts).stop.Spins?
  {
    hide ReadAll, Left;
  }

  /** A round does not change the fate of the loop. */
  lemma {:induction false} RoundKeepsFate(s: Loop)
    requires s.Loop?
    ensures var doomed, t := Doomed(s.command, s.rest, FilledAfter(s.items)), Round(s);
            doomed == (t.Loop? && Doomed(t.command, t.rest, FilledAfter(t.items)))
  {
    hide NextItem, ReadAll, Left, RenderAll, FilledAfter, Land, Render;
    var c, ts, pos := s.command, s.rest, FilledAfter(s.items);
    if ts == [] {
      ReadNone(c, ts, pos);
    } else {
      NoStopSpins(c, ts, pos);
      match NextItem(c, ts, pos)
      case Took(item) =>
        ReadOne(c, ts, pos);
        FilledNext(s.items, item);
      case TookNothing =>
      case Stops(stop) =>
        ReadNone(c, ts, pos);
        if stop.Enter? {
          DoomedFromStart(stop.command, stop.rest);
          NoneFilled();
        }
    }
  }

  lemma {:induction false} FilledNext(items: seq<Item>, item: Item)
    ensures FilledAfter(items + [item]) == FilledAfter(items) + Advance(item)
  {
    assert (items + [item])[..|items|] == items;
  }

  lemma {:induction false} NoneFilled()
    ensures FilledAfter([]) == 0
  {
  }

  /** A doomed loop never ends; any other ends with one round more than it has tokens, if not before. */
  lemma {:induction false} FateIsMet(s: Loop, n: nat)
    requires s.Loop?
    ensures if Doomed(s.command, s.rest, FilledAfter(s.items)) then Rounds(s, n).Loop?
            else Rounds(s, |s.rest| + 1).Over?
    decreases |s.rest|, n
  {
    hide Doomed, Round, FilledAfter;
    RoundKeepsFate(s);
    var t, m := Round(s), |s.rest|;
    if t.Over? {
      OverStaysOver(t, m);
    } else if t == s {
      SameForEver(s, n);
      StillDoomed(s);
    } else {
      RoundMoves(s);
      FateIsMet(t, if n > 0 then n - 1 else 0);
      if Rounds(t, |t.rest| + 1).Over? { OverForGood(t, |t.rest| + 1, m); }
    }
  }

  lemma {:induction false} OverStaysOver(s: Loop, n: nat)
    requires s.Over?
    ensures Rounds(s, n).Over?
  {
    SameForEver(s, n);
  }

  lemma {:induction false} StillDoomed(s: Loop)
    requires s.Loop? && Round(s) == s
    ensures Doomed(s.command, s.rest, FilledAfter(s.items))
  {
    hide NextItem, ReadAll, Left, RenderAll, FilledAfter, Land;
    RoundMoves(s);
    ReadNone(s.command, s.rest, FilledAfter(s.items));
  }

  /** The loop is endless exactly if it comes to a round that takes nothing; else it ends in time. */
  lemma {:induction false} EndlessExactly(c: Command, ts: seq<Token>)
    ensures (forall n: nat :: Rounds(Begin(c, ts), n).Loop?) <==> Land(c, ts).stop.Spins?
    ensures Land(c, ts).stop.Spins? || Rounds(Begin(c, ts), |ts| + 1).Over?
  {
    hide Doomed, Rounds, Land, FilledAfter;
    DoomedFromStart(c, ts);
    NoneFilled();
    forall n: nat
      ensures if Land(c, ts).stop.Spins? then Rounds(Begin(c, ts), n).Loop? else Rounds(Begin(c, ts), |ts| + 1).Over?
    {
      FateIsMet(Begin(c, ts), n);
    }
    assert Rounds(Begin(c, ts), |ts| + 1).Over? || Rounds(Begin(c, ts), |ts| + 1).Loop?;
  }

  // ------------------------------------------------------------------ condition

  /** A flag after which the loop is back at the positionals: one that does not take all values it can get. */
  predicate Breaks(c: Command, t: Token) {
    IsFlag(t) && (t.FlagShort? ==> |t.name| <= 1)
    && match FindKeyword(c.args, t.name, t.FlagShort?)
       case Some(arg) => !arg.isHelp && (arg.isJson || arg.kind != Multiple)
       case None => t.FlagLong? && c.dynamicKeywords == Some(Single)
  }

  ghost predicate HasBreak(c: Command) {
    exists t :: Breaks(c, t)
  }

  /** The first flag among the positionals from one on, and that it can be come to. */
  ghost predicate ExposedAt(c: Command, pos: nat, j: nat) {
    var ps := Positionals(c);
    pos <= j < |ps| && ps[j].kind == Flag && (forall i :: pos <= i < j ==> ps[i].kind != Flag)
    && ((forall i :: pos <= i < j ==> ps[i].kind == Single) || HasBreak(c))
  }

  ghost predicate Exposed(c: Command) {
    exists j :: ExposedAt(c, 0, j)
  }

  /** The command the words lead to. */
  function Reach(c: Command, words: seq<string>): Option<Command>
    decreases |words|
  {
    if words == [] then Some(c)
    else
      var found := FindSubcommand(c.subs, words[0]);
      if found.Found? then Reach(found.command, words[1..]) else None
  }

  lemma {:induction false} StuckIsSpinning(c: Command, ts: seq<Token>, hook: Hook)
    ensures Parse(c, ts, hook).status.Stuck? <==> Land(c, ts).stop.Spins?
  {
    hide Parse, Land, Finish;
    ParseConcludes(c, ts, hook);
    var l := Land(c, ts);
    FinishIsNotStuck(l.command, l.items, hook);
  }

  lemma {:induction false} FinishIsNotStuck(c: Command, items: seq<Item>, hook: Hook)
    ensures !Finish(c, items, hook).status.Stuck?
  {
    hide SeenAfter, FilledAfter, PositionalsOf, PassthroughAfter, Conflicting, FirstMissing, FirstUnfilled,
      FinalValues, DynamicAfter;
  }

  // ---------------------------------------------------------- spinning is exposed

  /** Tokens no value can be made of begin an item only if they are flags. */
  lemma {:induction false} OnlyFlagsGoOn(c: Command, ts: seq<Token>, pos: nat)
    requires ts != [] && !IsText(ts[0]) && !IsFlag(ts[0]) && !ts[0].DoubleMinus?
    ensures NextItem(c, ts, pos).Stops? && !NextItem(c, ts, pos).stop.Spins?
  {
    hide FindSubcommand, FlagStep, PositionalsOf, RunOf;
  }

  lemma {:induction false} SpinsAt(c: Command, ts: seq<Token>, pos: nat)
    requires ts != [] && NextItem(c, ts, pos) == TookNothing
    ensures ExposedAt(c, pos, pos)
  {
    hide FindSubcommand, FlagStep, PositionalsOf, RunOf, ValueOf, HasBreak;
    if IsFlag(ts[0]) { FlagsEnterNothing(c, ts[0], ts[1..]); }
  }

  /** An item that begins with a flag is a break or takes all the values it can get. */
  lemma {:induction false} FlagBreaksOrRuns(c: Command, flag: Token, more: seq<Token>)
    requires IsFlag(flag) && FlagStep(c, flag, more).Took?
    ensures HasBreak(c) || Render(FlagStep(c, flag, more).item) == [flag] + RunOf(more)
  {
    hide FindKeyword, RunOf, ValueOf, BundleFrom, IsText;
    if flag.FlagShort? && |flag.name| > 1 {
      BundleBreaks(c, flag.name);
    }
    assert Breaks(c, flag) ==> HasBreak(c);
  }

  lemma {:induction false} BundleBreaks(c: Command, letters: string)
    requires letters != [] && BundleFrom(c.args, letters).Ended?
    ensures HasBreak(c)
  {
    hide FindKeyword;
    assert Breaks(c, Lexer.FlagShort(letters[..1]));
  }

  /** To spin from a token that is no value, a break is needed. */
  lemma {:induction false} SpinningNeedsBreak(c: Command, ts: seq<Token>, pos: nat)
    requires ReadAll(c, ts, pos).stop.Spins? && ts != [] && !IsText(ts[0])
    ensures HasBreak(c)
    decreases |ts|
  {
    hide ReadAll, NextItem, Left, RenderAll, FlagStep, RunOf, IsText, HasBreak, ValueOf, PositionalsOf;
    SeveralAreText(ts[0], false);
    if !NextItem(c, ts, pos).Took? {
      ReadNone(c, ts, pos);
      NoStopSpins(c, ts, pos);
      SpinsAtText(c, ts, pos);
      assert false;
    } else {
      ReadOne(c, ts, pos);
      var item := NextItem(c, ts, pos).item;
      var n := |Render(item)|;
      NextOfFlag(c, ts, pos);
      if ts[0].DoubleMinus? {
        assert ts[n..] == [];
        ReadNone(c, [], pos + Advance(item));
        assert false;
      } else if !IsFlag(ts[0]) {
        OnlyFlagsGoOn(c, ts, pos);
        assert false;
      } else {
        FlagBreaksOrRuns(c, ts[0], ts[1..]);
        if !HasBreak(c) {
          AfterRun(ts[0], ts[1..]);
          if ts[n..] == [] { ReadNone(c, [], pos + Advance(item)); }
          SpinningNeedsBreak(c, ts[n..], pos + Advance(item));
        }
      }
    }
  }

  /** Only a round that takes nothing makes the reading spin. */
  lemma {:induction false} NoStopSpins(c: Command, ts: seq<Token>, pos: nat)
    requires ts != []
    ensures NextItem(c, ts, pos) != Stops(Spins)
  {
    hide FindSubcommand, FlagStep, PositionalsOf, RunOf, ValueOf;
    if IsFlag(ts[0]) { FlagsEnterNothing(c, ts[0], ts[1..]); }
  }

  lemma {:induction false} SpinsAtText(c: Command, ts: seq<Token>, pos: nat)
    requires ts != [] && NextItem(c, ts, pos) == TookNothing
    ensures IsText(ts[0])
  {
    hide FindSubcommand, FlagStep, PositionalsOf, RunOf;
    if IsFlag(ts[0]) { FlagsEnterNothing(c, ts[0], ts[1..]); }
  }

  lemma {:induction false} NextOfFlag(c: Command, ts: seq<Token>, pos: nat)
    requires ts != []
    ensures IsFlag(ts[0]) ==> NextItem(c, ts, pos) == FlagStep(c, ts[0], ts[1..])
    ensures ts[0].DoubleMinus? && NextItem(c, ts, pos).Took? ==> NextItem(c, ts, pos).item == Rest(ts[1..])
  {
    hide FlagStep, FindSubcommand, PositionalsOf, ValueOf, RunOf;
  }

  lemma {:induction false} AfterRun(flag: Token, more: seq<Token>)
    ensures var rest := ([flag] + more)[|[flag] + RunOf(more)|..];
            rest == more[|RunOf(more)|..] && (rest != [] ==> !IsText(rest[0]))
  {
    hide RunOf;
    if |RunOf(more)| < |more| { SeveralAreText(more[|RunOf(more)|], false); }
  }

  /** A reading that spins has come to an exposed flag. */
  lemma {:induction false} SpinningIsExposed(c: Command, ts: seq<Token>, pos: nat) returns (j: nat)
    requires ReadAll(c, ts, pos).stop.Spins?
    ensures ExposedAt(c, pos, j)
    decreases |ts|
  {
    hide ReadAll, NextItem, Left, RenderAll, RunOf, IsText, HasBreak, ValueOf, PositionalsOf;
    if ts == [] || !NextItem(c, ts, pos).Took? {
      ReadNone(c, ts, pos);
      NoStopSpins(c, ts, pos);
      SpinsAt(c, ts, pos);
      j := pos;
    } else {
      ReadOne(c, ts, pos);
      var item := NextItem(c, ts, pos).item;
      var n, next := |Render(item)|, pos + Advance(item);
      j := SpinningIsExposed(c, ts[n..], next);
      if item.Positional? {
        TakenInTurn(c, ts, pos);
        TakenKind(c, ts, pos);
        if Positionals(c)[pos].kind == Multiple {
          if ts[n..] == [] { ReadNone(c, [], next); }
          SpinningNeedsBreak(c, ts[n..], next);
        }
      }
    }
  }

  lemma {:induction false} TakenKind(c: Command, ts: seq<Token>, pos: nat)
    requires ts != [] && NextItem(c, ts, pos).Took? && NextItem(c, ts, pos).item.Positional?
    ensures var item := NextItem(c, ts, pos).item;
            item.arg.kind != Flag
            && (item.arg.kind == Multiple && |item.values| < |ts| ==> !IsText(ts[|item.values|]))
  {
    hide FindSubcommand, FlagStep, PositionalsOf, RunOf, ValueOf;
    if IsFlag(ts[0]) {
      FlagsTakeNoPositional(c, ts[0], ts[1..]);
    } else if |RunOf(ts)| < |ts| {
      SeveralAreText(ts[|RunOf(ts)|], false);
    }
  }

  lemma {:induction false} FlagsTakeNoPositional(c: Command, flag: Token, more: seq<Token>)
    requires IsFlag(flag) && FlagStep(c, flag, more).Took?
    ensures !FlagStep(c, flag, more).item.Positional?
  {
    hide FindKeyword, RunOf, ValueOf, BundleFrom;
  }

  // ---------------------------------------------------------- exposed can be spun

  /** Tokens that bring the loop back after a flag. */
  function BreakTokens(c: Command, t: Token): seq<Token> {
    if !IsFlag(t) then []
    else
      var found := FindKeyword(c.args, t.name, t.FlagShort?);
      if found.Some? && found.value.isJson then [t] else [t, Lexer.True]
  }

  lemma {:induction false} BreakReads(c: Command, t: Token, ts: seq<Token>, pos: nat)
    requires Breaks(c, t)
    ensures ReadAll(c, BreakTokens(c, t) + ts, pos).stop == ReadAll(c, ts, pos).stop
  {
    hide ReadAll, Left, RenderAll, FindKeyword, RunOf;
    var all := BreakTokens(c, t) + ts;
    assert all[0] == t;
    NextOfFlag(c, all, pos);
    BreakStep(c, t, all[1..]);
    ReadOne(c, all, pos);
    assert all[|BreakTokens(c, t)|..] == ts;
  }

  lemma {:induction false} BreakStep(c: Command, t: Token, more: seq<Token>)
    requires Breaks(c, t) && (|BreakTokens(c, t)| == 2 ==> more != [] && more[0] == Lexer.True)
    ensures var s := FlagStep(c, t, more);
            s.Took? && !s.item.Positional? && |Render(s.item)| == |BreakTokens(c, t)|
  {
    hide FindKeyword, RunOf, BundleFrom;
  }

  /** Enough values for the positionals from one on, and one more for the flag. */
  function SpinTokens(c: Command, t: Token, pos: nat, j: nat): seq<Token>
    requires pos <= j < |Positionals(c)|
    decreases j - pos
  {
    if pos == j then [Lexer.True]
    else [Lexer.True] + (if Positionals(c)[pos].kind == Multiple then BreakTokens(c, t)
      else []) + SpinTokens(c, t, pos + 1, j)
  }

  lemma {:induction false} SpinTokensSpin(c: Command, t: Token, pos: nat, j: nat)
    requires ExposedAt(c, pos, j) && (Breaks(c, t) || forall i :: pos <= i < j ==> Positionals(c)[i].kind == Single)
    ensures ReadAll(c, SpinTokens(c, t, pos, j), pos).stop.Spins?
    decreases j - pos
  {
    hide ReadAll, NextItem, Left, RenderAll, PositionalsOf, HasBreak, Breaks, RunOf, BreakTokens;
    var ts := SpinTokens(c, t, pos, j);
    var kind := Positionals(c)[pos].kind;
    if pos == j {
      TrueSpins(c, ts, pos);
      ReadNone(c, ts, pos);
    } else {
      var more := SpinTokens(c, t, pos + 1, j);
      var gap := if kind == Multiple then BreakTokens(c, t) else [];
      assert ts == [Lexer.True] + (gap + more);
      GapIsFlag(c, t);
      TrueIsTaken(c, gap + more, pos);
      ReadOne(c, ts, pos);
      assert ts[1..] == gap + more;
      SpinTokensSpin(c, t, pos + 1, j);
      if kind == Multiple { BreakReads(c, t, more, pos + 1); } else { assert [] + more == more; }
    }
  }

  lemma {:induction false} GapIsFlag(c: Command, t: Token)
    ensures Breaks(c, t) ==> BreakTokens(c, t) != [] && IsFlag(BreakTokens(c, t)[0])
  {
    hide FindKeyword;
  }

  lemma {:induction false} TrueSpins(c: Command, ts: seq<Token>, pos: nat)
    requires ts != [] && ts[0] == Lexer.True && pos < |Positionals(c)| && Positionals(c)[pos].kind == Flag
    ensures NextItem(c, ts, pos) == TookNothing
  {
    hide FindSubcommand, PositionalsOf, RunOf;
  }

  lemma {:induction false} TrueIsTaken(c: Command, more: seq<Token>, pos: nat)
    requires pos < |Positionals(c)| && Positionals(c)[pos].kind != Flag
    requires Positionals(c)[pos].kind == Multiple ==> more != [] && IsFlag(more[0])
    ensures NextItem(c, [Lexer.True] + more, pos) == Took(Positional(Positionals(c)[pos], [Lexer.True]))
  {
    hide FindSubcommand, PositionalsOf;
    var ts := [Lexer.True] + more;
    assert ts[..1] == [Lexer.True] && ts[1..] == more;
    assert more != [] && IsFlag(more[0]) ==> RunOf(more) == [];
    assert RunOf(ts) == [Lexer.True] + RunOf(more);
  }

  function Ids(words: seq<string>): seq<Token> {
    if words == [] then [] else [Lexer.Id(words[0])] + Ids(words[1..])
  }

  lemma {:induction false} WordsLead(c: Command, words: seq<string>, ts: seq<Token>)
    requires Reach(c, words).Some?
    ensures Land(c, Ids(words) + ts) == Land(Reach(c, words).value, ts)
    decreases |words|
  {
    hide ReadAll, Left, FindSubcommand, NextItem;
    if words == [] {
      assert Ids(words) + ts == ts;
    } else {
      var all := Ids(words) + ts;
      var sub := FindSubcommand(c.subs, words[0]).command;
      assert all[0] == Lexer.Id(words[0]) && all[1..] == Ids(words[1..]) + ts;
      WordEnters(c, all);
      ReadNone(c, all, 0);
      WordsLead(sub, words[1..], ts);
    }
  }

  lemma {:induction false} WordEnters(c: Command, ts: seq<Token>)
    requires ts != [] && ts[0].Id? && FindSubcommand(c.subs, ts[0].name).Found?
    ensures NextItem(c, ts, 0) == Stops(Enter(FindSubcommand(c.subs, ts[0].name).command, ts[1..]))
  {
    hide FindSubcommand, PositionalsOf, FlagStep;
  }

  // ------------------------------------------------------------------- theorem

  /** The words a parse went through. */
  lemma {:induction false} LandedByWords(c: Command, ts: seq<Token>) returns (words: seq<string>)
    requires Land(c, ts).stop.Spins?
    ensures Reach(c, words).Some? && Exposed(Reach(c, words).value)
    decreases |ts|
  {
    hide ReadAll, Left, FindSubcommand, ExposedAt;
    EnterIsShorter(c, ts, 0);
    var stop := ReadAll(c, ts, 0).stop;
    if stop.Enter? {
      LeftAtEnter(c, ts, 0);
      var word := Left(c, ts, 0)[0].name;
      var more := LandedByWords(stop.command, stop.rest);
      words := [word] + more;
      assert words[1..] == more;
    } else {
      var j := SpinningIsExposed(c, ts, 0);
      words := [];
    }
  }

  lemma {:induction false} ExposedSpins(c: Command) returns (ts: seq<Token>)
    requires Exposed(c)
    ensures Land(c, ts).stop.Spins?
  {
    hide ReadAll, Left, PositionalsOf, Breaks, SpinTokens;
    var j :| ExposedAt(c, 0, j);
    var t := Lexer.Eof;
    if HasBreak(c) { t :| Breaks(c, t); }
    ts := SpinTokens(c, t, 0, j);
    SpinTokensSpin(c, t, 0, j);
  }

  /** The loops come to an end. */
  ghost predicate Ends(c: Command, ts: seq<Token>) {
    exists n: nat :: Rounds(Begin(c, ts), n).Over?
  }

  lemma {:induction false} EndsUnlessSpinning(c: Command, ts: seq<Token>)
    ensures Ends(c, ts) <==> !Land(c, ts).stop.Spins?
    ensures Ends(c, ts) ==> Rounds(Begin(c, ts), |ts| + 1).Over?
  {
    hide Rounds, Land;
    EndlessExactly(c, ts);
    if Ends(c, ts) {
      var n: nat :| Rounds(Begin(c, ts), n).Over?;
      assert !Rounds(Begin(c, ts), n).Loop?;
    }
    if !Land(c, ts).stop.Spins? { assert Rounds(Begin(c, ts), |ts| + 1).Over?; }
  }

  /**
   * For every token list the loops of a command tree come to an end, if and only if none of its
   * commands is exposed.
   */
  lemma {:induction false} EveryParseEnds(c: Command)
    ensures (forall ts :: Ends(c, ts)) <==>
            (forall words :: Reach(c, words).Some? ==> !Exposed(Reach(c, words).value))
  {
    hide Ends, Land, Reach, Exposed;
    SpinsIffExposed(c);
    if ts :| !Ends(c, ts) { EndsUnlessSpinning(c, ts); }
    if ts :| Land(c, ts).stop.Spins? { EndsUnlessSpinning(c, ts); }
  }

  lemma {:induction false} SpinsIffExposed(c: Command)
    ensures (forall ts :: !Land(c, ts).stop.Spins?) <==>
            (forall words :: Reach(c, words).Some? ==> !Exposed(Reach(c, words).value))
  {
    hide Land, Reach, Exposed;
    if words :| Reach(c, words).Some? && Exposed(Reach(c, words).value) {
      var ts := ExposedSpins(Reach(c, words).value);
      WordsLead(c, words, ts);
      assert Land(c, Ids(words) + ts).stop.Spins?;
    }
    if ts :| Land(c, ts).stop.Spins? {
      var words := LandedByWords(c, ts);
    }
  }

  // ------------------------------------------------------- what registration gives

  /** Positionals throughout the tree take values, as the functions that add them demand. */
  predicate TakesValues(c: Command) {
    (forall k :: 0 <= k < |c.args| && c.args[k].positional ==> c.args[k].kind != Flag)
    && forall k :: 0 <= k < |c.subs| ==> TakesValues(c.subs[k])
  }

  lemma {:induction false} ValuesAllTheWay(c: Command, words: seq<string>)
    requires TakesValues(c) && Reach(c, words).Some?
    ensures !Exposed(Reach(c, words).value)
    decreases |words|
  {
    hide FindSubcommand, PositionalsOf;
    if words != [] {
      ValuesAllTheWay(FindSubcommand(c.subs, words[0]).command, words[1..]);
    } else {
      forall j: nat ensures !ExposedAt(c, 0, j) {
        if 0 <= j < |Positionals(c)| { assert Positionals(c)[j] in Positionals(c); }
      }
    }
  }

  /** No parse of such a tree is endless. */
  lemma {:induction false} NoParseIsEndless(c: Command, ts: seq<Token>, hook: Hook)
    requires TakesValues(c)
    ensures !Parse(c, ts, hook).status.Stuck? && Rounds(Begin(c, ts), |ts| + 1).Over?
  {
    hide Parse, Land, Reach, Exposed, TakesValues, Rounds;
    StuckIsSpinning(c, ts, hook);
    forall words | Reach(c, words).Some? ensures !Exposed(Reach(c, words).value) {
      ValuesAllTheWay(c, words);
    }
    SpinsIffExposed(c);
    EndlessExactly(c, ts);
  }

  /** The builder lets a flag be declared positional; if it is the first one, one token keeps the loop busy for ever. */
  lemma {:induction false} BuilderExample(c: Command, n: nat, hook: Hook)
    requires Positionals(c) != [] && Positionals(c)[0].kind == Flag
    ensures Rounds(Begin(c, [Lexer.True]), n) == Begin(c, [Lexer.True])
    ensures Parse(c, [Lexer.True], hook).status.Stuck?
  {
    hide Parse, ReadAll, NextItem, Left, RenderAll, PositionalsOf, FilledAfter, Round, Rounds;
    var ts := [Lexer.True];
    TrueSpins(c, ts, 0);
    NoneFilled();
    RoundFrom(Begin(c, ts));
    SameForEver(Begin(c, ts), n);
    StuckIsSpinning(c, ts, hook);
    ReadNone(c, ts, 0);
  }
}
