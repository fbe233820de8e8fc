/** What holds of every parse: nothing lost, nothing read twice, handlers only when all is in order. */
module CommandLaws {
  import Lexer
  import opened Commands

  // -------------------------------------------------------------- where it ends

  /** The command a parse ends in, what that command read and why it stopped. */
  datatype Landing = Landing(command: Command, items: seq<Item>, stop: Stop, left: seq<Token>)

  function Land(c: Command, ts: seq<Token>): Landing
    decreases |ts|
  {
    var reading := ReadAll(c, ts, 0);
    EnterIsShorter(c, ts, 0);
    if reading.stop.Enter? then Land(reading.stop.command, reading.stop.rest)
    else Landing(c, reading.items, reading.stop, Left(c, ts, 0))
  }

  ghost function Conclude(l: Landing, hook: Hook): Outcome {
    match l.stop
    case Ended => Finish(l.command, l.items, hook)
    case Fails(failure) => Failed(failure)
    case BundledHelp => Outcome(HelpRequested, [], [], [])
    case Help =>
      if hook(l.command, true) then Outcome(HelpRequested, [], [], [])
      else Outcome(Success, [], PassthroughAfter(l.items), l.left)
    case _ => Outcome(Stuck, [], [], [])
  }

  lemma {:induction false} ParseConcludes(c: Command, ts: seq<Token>, hook: Hook)
    ensures Parse(c, ts, hook) == Conclude(Land(c, ts), hook) && !Land(c, ts).stop.Enter?
    decreases |ts|
  {
    hide ReadAll, Finish, Left;
    EnterIsShorter(c, ts, 0);
    var stop := ReadAll(c, ts, 0).stop;
    if stop.Enter? { ParseConcludes(stop.command, stop.rest, hook); }
  }

  // -------------------------------------------------------------- conservation

  /** The commands a parse goes through, with what each of them read. */
  datatype Trail =
    | Here(command: Command, items: seq<Item>, left: seq<Token>)
    | Through(command: Command, items: seq<Item>, word: string, next: Trail)

  function TrailOf(c: Command, ts: seq<Token>): Trail
    decreases |ts|
  {
    var reading, left := ReadAll(c, ts, 0), Left(c, ts, 0);
    EnterIsShorter(c, ts, 0);
    if reading.stop.Enter? && left != [] && left[0].Id?
    then Through(c, reading.items, left[0].name, TrailOf(reading.stop.command, reading.stop.rest))
    else Here(c, reading.items, left)
  }

  function RenderTrail(trail: Trail): seq<Token> {
    match trail
    case Here(_, items, left) => RenderAll(items) + left
    case Through(_, items, word, next) => RenderAll(items) + [Lexer.Id(word)] + RenderTrail(next)
  }

  /** Each command on the way answers to the word that led to it. */
  predicate Connected(trail: Trail) {
    match trail
    case Here(_, _, _) => true
    case Through(c, _, word, next) => FindSubcommand(c.subs, word) == Found(next.command) && Connected(next)
  }

  function End(trail: Trail): Trail {
    match trail
    case Here(_, _, _) => trail
    case Through(_, _, _, next) => End(next)
  }

  /** The items and what is left are the tokens. */
  lemma {:induction false} ReadingConserves(c: Command, ts: seq<Token>, pos: nat)
    ensures var r := ReadAll(c, ts, pos);
            ts == RenderAll(r.items) + Left(c, ts, pos) && (r.stop.Ended? <==> Left(c, ts, pos) == [])
    decreases |ts|
  {
    hide ReadAll, Left, NextItem, Render, RenderAll;
    if ts == [] || !NextItem(c, ts, pos).Took? {
      ReadNone(c, ts, pos);
    } else {
      var item := NextItem(c, ts, pos).item;
      ReadOne(c, ts, pos);
      var n, next := |Render(item)|, pos + Advance(item);
      var more := ReadAll(c, ts[n..], next);
      ReadingConserves(c, ts[n..], next);
      RenderFront(item, more.items);
      Rejoined(ts, Render(item), RenderAll(more.items), Left(c, ts[n..], next));
    }
  }

  lemma {:induction false} Rejoined(ts: seq<Token>, front: seq<Token>, middle: seq<Token>, left: seq<Token>)
    requires |front| <= |ts| && front == ts[..|front|] && ts[|front|..] == middle + left
    ensures ts == front + middle + left
  {
  }

  /** How reading stops at a round that takes no item. */
  function StopOf(step: Step): Stop {
    if step.Stops? then step.stop else Spins
  }

  lemma {:induction false} ReadNone(c: Command, ts: seq<Token>, pos: nat)
    requires ts == [] || !NextItem(c, ts, pos).Took?
    ensures ReadAll(c, ts, pos) == Reading([], if ts == [] then Ended else StopOf(NextItem(c, ts, pos)))
    ensures Left(c, ts, pos) == ts && RenderAll([]) == [] && (ReadAll(c, ts, pos).stop.Ended? <==> ts == [])
  {
    hide NextItem;
    if ts != [] { StopsAreReal(c, ts, pos); }
  }

  lemma {:induction false} ReadOne(c: Command, ts: seq<Token>, pos: nat)
    requires ts != [] && NextItem(c, ts, pos).Took?
    ensures var item := NextItem(c, ts, pos).item;
            var n, next := |Render(item)|, pos + Advance(item);
            0 < n <= |ts| && Render(item) == ts[..n]
            && ReadAll(c, ts, pos) == Reading([item] + ReadAll(c, ts[n..], next).items, ReadAll(c, ts[n..], next).stop)
            && Left(c, ts, pos) == Left(c, ts[n..], next)
  {
    hide NextItem, Render;
    ItemsAreFronts(c, ts, pos);
  }

  lemma {:induction false} RenderFront(item: Item, items: seq<Item>)
    ensures RenderAll([item] + items) == Render(item) + RenderAll(items)
  {
    hide Render;
    assert ([item] + items)[1..] == items;
  }

  lemma {:induction false} StopsAreReal(c: Command, ts: seq<Token>, pos: nat)
    requires ts != []
    ensures var s := NextItem(c, ts, pos); s.Stops? ==> !s.stop.Ended?
  {
    hide FindSubcommand, ValueOf, PositionalsOf, FlagStep;
    if IsFlag(ts[0]) { FlagsEnterNothing(c, ts[0], ts[1..]); }
  }

  lemma {:induction false} LeftAtEnter(c: Command, ts: seq<Token>, pos: nat)
    requires ReadAll(c, ts, pos).stop.Enter?
    ensures var left, stop := Left(c, ts, pos), ReadAll(c, ts, pos).stop;
            left != [] && left[0].Id? && left == [left[0]] + stop.rest
            && FindSubcommand(c.subs, left[0].name) == Found(stop.command)
    decreases |ts|
  {
    hide NextItem;
    if ts != [] {
      match NextItem(c, ts, pos)
      case TookNothing =>
      case Stops(_) => EnterIsNext(c, ts, pos);
      case Took(item) =>
        ItemsAreFronts(c, ts, pos);
        LeftAtEnter(c, ts[|Render(item)|..], pos + Advance(item));
    }
  }

  /** Every token is in exactly one place: a command word, an item, or what is left. */
  lemma {:induction false} TokensAreConserved(c: Command, ts: seq<Token>)
    ensures var trail := TrailOf(c, ts);
            RenderTrail(trail) == ts && Connected(trail) && trail.command == c
    ensures var end, l := End(TrailOf(c, ts)), Land(c, ts);
            end == Here(l.command, l.items, l.left)
    decreases |ts|
  {
    hide ReadAll, Left, FindSubcommand, RenderAll;
    ReadingConserves(c, ts, 0);
    EnterIsShorter(c, ts, 0);
    var stop := ReadAll(c, ts, 0).stop;
    if stop.Enter? {
      LeftAtEnter(c, ts, 0);
      TokensAreConserved(stop.command, stop.rest);
    }
  }

  lemma {:induction false} LandingLeft(c: Command, ts: seq<Token>)
    ensures var l := Land(c, ts); l.stop.Ended? <==> l.left == []
    decreases |ts|
  {
    hide ReadAll, Left;
    ReadingConserves(c, ts, 0);
    EnterIsShorter(c, ts, 0);
    var stop := ReadAll(c, ts, 0).stop;
    if stop.Enter? { LandingLeft(stop.command, stop.rest); }
  }

  lemma {:induction false} FinishReadsAll(c: Command, items: seq<Item>, hook: Hook)
    ensures Finish(c, items, hook).unread == []
  {
    hide SeenAfter, FilledAfter, PositionalsOf, PassthroughAfter, Conflicting, FirstMissing, FirstUnfilled;
  }

  /** A parse succeeds with tokens unread exactly if it met a help flag and the hooks refused. */
  lemma {:induction false} SuccessReadsAll(c: Command, ts: seq<Token>, hook: Hook)
    ensures var r, l := Parse(c, ts, hook), Land(c, ts);
            r.status.Success? && r.unread != [] <==> l.stop.Help? && !hook(l.command, true)
    ensures (forall x :: hook(x, true)) && Parse(c, ts, hook).status.Success? ==> Land(c, ts).left == []
  {
    hide Parse, Land, Finish;
    ParseConcludes(c, ts, hook);
    LandingLeft(c, ts);
    var l := Land(c, ts);
    FinishReadsAll(l.command, l.items, hook);
    if l.stop.Help? && (forall x :: hook(x, true)) { assert hook(l.command, true); }
  }

  // ------------------------------------------------------------------ handlers

  function PositionalItems(items: seq<Item>): (r: seq<Item>)
    ensures forall k :: 0 <= k < |r| ==> r[k].Positional?
  {
    if items == [] then []
    else PositionalItems(items[..|items| - 1]) + if items[|items| - 1].Positional? then [items[|items| - 1]] else []
  }

  ghost predicate Given(c: Command, items: seq<Item>, name: string) {
    exists k :: 0 <= k < |items| && name in Names(c, items[k])
  }

  /** The positionals that were given are the first ones, in the order they were declared. */
  ghost predicate DeclaredOrder(c: Command, items: seq<Item>) {
    var given, declared := PositionalItems(items), Positionals(c);
    |given| <= |declared| && forall k :: 0 <= k < |given| ==> For(given[k], declared, k)
  }

  ghost predicate RequiredOptionsGiven(c: Command, items: seq<Item>) {
    forall k :: 0 <= k < |c.args| ==>
      c.args[k].required && !c.args[k].positional && !c.args[k].isHelp ==> Given(c, items, c.args[k].name)
  }

  ghost predicate RequiredPositionalsGiven(c: Command, items: seq<Item>) {
    forall k :: 0 <= k < |Positionals(c)| && Positionals(c)[k].required ==> k < |PositionalItems(items)|
  }

  /** Of two distinct options given, neither names the other, whichever declares it. */
  ghost predicate NoTwoConflict(c: Command, items: seq<Item>) {
    forall k, n :: 0 <= k < |c.args| && n in c.args[k].conflictsWith ==>
      Given(c, items, c.args[k].name) && Given(c, items, n) ==> n == c.args[k].name
  }

  lemma {:induction false} SeenWasGiven(c: Command, items: seq<Item>, name: string)
    ensures name in SeenAfter(c, items) <==> Given(c, items, name)
    decreases |items|
  {
    hide Names;
    if items != [] {
      var before := items[..|items| - 1];
      SeenWasGiven(c, before, name);
      if Given(c, items, name) {
        var k :| 0 <= k < |items| && name in Names(c, items[k]);
        assert k < |before| ==> before[k] == items[k];
      }
      if Given(c, before, name) {
        var k :| 0 <= k < |before| && name in Names(c, before[k]);
        assert items[k] == before[k];
      }
    }
  }

  lemma {:induction false} FilledCounts(items: seq<Item>)
    ensures FilledAfter(items) == |PositionalItems(items)|
  {
    if items != [] { FilledCounts(items[..|items| - 1]); }
  }

  lemma {:induction false} PositionalItemsFront(item: Item, items: seq<Item>)
    ensures PositionalItems([item] + items) == (if item.Positional? then [item] else []) + PositionalItems(items)
    decreases |items|
  {
    var all := [item] + items;
    if items == [] {
      assert all[..|all| - 1] == [];
    } else {
      assert all[..|all| - 1] == [item] + items[..|items| - 1];
      PositionalItemsFront(item, items[..|items| - 1]);
    }
  }

  lemma {:induction false} TakenInTurn(c: Command, ts: seq<Token>, pos: nat)
    requires ts != [] && NextItem(c, ts, pos).Took? && NextItem(c, ts, pos).item.Positional?
    ensures pos < |Positionals(c)| && NextItem(c, ts, pos).item.arg == Positionals(c)[pos]
  {
    hide ValueOf, FindSubcommand, FindKeyword, PositionalsOf, RunOf, BundleFrom;
  }

  /** Positional items for the declarations from a position on. */
  ghost predicate Follow(given: seq<Item>, declared: seq<Argument>, pos: nat) {
    (pos <= |declared| ==> pos + |given| <= |declared|) && forall k :: 0 <= k < |given| ==>
      For(given[k], declared, pos + k)
  }

  predicate For(item: Item, declared: seq<Argument>, pos: nat) {
    item.Positional? && pos < |declared| && item.arg == declared[pos] && item.values != []
  }

  lemma {:induction false} FollowFront(item: Item, later: seq<Item>, declared: seq<Argument>, pos: nat)
    requires For(item, declared, pos) && Follow(later, declared, pos + 1)
    ensures Follow([item] + later, declared, pos)
  {
    hide For;
    assert pos < |declared| by { assert For(item, declared, pos); ForIsInside(item, declared, pos); }
    forall k | 0 <= k < |later| + 1 ensures For(([item] + later)[k], declared, pos + k) {
      if k > 0 { assert For(later[k - 1], declared, pos + 1 + (k - 1)); }
    }
  }

  lemma {:induction false} ForIsInside(item: Item, declared: seq<Argument>, pos: nat)
    requires For(item, declared, pos)
    ensures pos < |declared|
  {
  }

  lemma {:induction false} ReadInOrder(c: Command, ts: seq<Token>, pos: nat)
    ensures Follow(PositionalItems(ReadAll(c, ts, pos).items), Positionals(c), pos)
    decreases |ts|
  {
    hide ReadAll, NextItem, PositionalItems, PositionalsOf, RenderAll, Left;
    if ts == [] || !NextItem(c, ts, pos).Took? {
      ReadNone(c, ts, pos);
      NoItems();
    } else {
      var item := NextItem(c, ts, pos).item;
      ReadOne(c, ts, pos);
      var n, next := |Render(item)|, pos + Advance(item);
      ReadInOrder(c, ts[n..], next);
      var more := ReadAll(c, ts[n..], next).items;
      PositionalItemsFront(item, more);
      if item.Positional? {
        TakenInTurn(c, ts, pos);
        FollowFront(item, PositionalItems(more), Positionals(c), pos);
      } else {
        assert [] + PositionalItems(more) == PositionalItems(more);
      }
    }
  }

  lemma {:induction false} NoItems()
    ensures PositionalItems([]) == []
  {
  }

  lemma {:induction false} LandedInOrder(c: Command, ts: seq<Token>)
    ensures var l := Land(c, ts); DeclaredOrder(l.command, l.items)
    decreases |ts|
  {
    hide ReadAll, PositionalItems, PositionalsOf, Left;
    ReadInOrder(c, ts, 0);
    var given := PositionalItems(ReadAll(c, ts, 0).items);
    forall k | 0 <= k < |given| ensures For(given[k], Positionals(c), k) {
      assert For(given[k], Positionals(c), 0 + k);
    }
    EnterIsShorter(c, ts, 0);
    var stop := ReadAll(c, ts, 0).stop;
    if stop.Enter? { LandedInOrder(stop.command, stop.rest); }
  }

  lemma {:induction false} RequiredSeen(c: Command, items: seq<Item>)
    ensures FirstMissing(c.args, SeenAfter(c, items)).None? <==> RequiredOptionsGiven(c, items)
  {
    hide FirstMissing, SeenAfter, Given;
    forall k | 0 <= k < |c.args|
      ensures c.args[k].name in SeenAfter(c, items) <==> Given(c, items, c.args[k].name)
    {
      SeenWasGiven(c, items, c.args[k].name);
    }
  }

  lemma {:induction false} RequiredFilled(c: Command, items: seq<Item>)
    requires DeclaredOrder(c, items)
    ensures FilledAfter(items) <= |Positionals(c)|
    ensures FirstUnfilled(Positionals(c)[FilledAfter(items)..]).None? <==> RequiredPositionalsGiven(c, items)
  {
    hide FirstUnfilled, PositionalsOf, PositionalItems, FilledAfter;
    FilledCounts(items);
    var ps, n := Positionals(c), FilledAfter(items);
    assert forall k :: n <= k < |ps| ==> ps[k] == ps[n..][k - n];
  }

  lemma {:induction false} ConflictsSeen(c: Command, items: seq<Item>)
    ensures !Conflicting(c.args, SeenAfter(c, items)) <==> NoTwoConflict(c, items)
  {
    hide SeenAfter, Given;
    var seen := SeenAfter(c, items);
    forall n: string ensures n in seen <==> Given(c, items, n) {
      SeenWasGiven(c, items, n);
    }
    if Conflicting(c.args, seen) {
      var k, i :| 0 <= k < |c.args| && 0 <= i < |c.args[k].conflictsWith| && Clash(c.args[k], i, seen);
      assert c.args[k].conflictsWith[i] in c.args[k].conflictsWith;
    }
    if !NoTwoConflict(c, items) {
      var k, n :| 0 <= k < |c.args| && n in c.args[k].conflictsWith
                  && Given(c, items, c.args[k].name) && Given(c, items, n) && n != c.args[k].name;
      var i :| 0 <= i < |c.args[k].conflictsWith| && c.args[k].conflictsWith[i] == n;
      assert Clash(c.args[k], i, seen);
    }
  }

  ghost predicate InOrder(c: Command, items: seq<Item>) {
    RequiredOptionsGiven(c, items) && RequiredPositionalsGiven(c, items) && NoTwoConflict(c, items)
  }

  lemma {:induction false} FinishInOrder(c: Command, items: seq<Item>, hook: Hook)
    requires DeclaredOrder(c, items)
    ensures var r := Finish(c, items, hook);
            r.calls == if c.hasHandler && hook(c, false) && InOrder(c, items)
                       then [Invocation(c, Merged(FinalValues(c, items), DynamicAfter(items)),
                         PassthroughAfter(items))] else []
    ensures Finish(c, items, hook).status.ParseError? <==> !InOrder(c, items)
    ensures Finish(c, items, hook).status.HelpRequested? <==>
            InOrder(c, items) && !c.hasHandler && c.subs != [] && hook(c, true)
  {
    hide FirstMissing, FirstUnfilled, Conflicting, RequiredOptionsGiven, RequiredPositionalsGiven, NoTwoConflict,
      SeenAfter, FilledAfter, PositionalsOf, FinalValues, DynamicAfter, PassthroughAfter, PositionalItems;
    RequiredSeen(c, items);
    RequiredFilled(c, items);
    ConflictsSeen(c, items);
    FilledCounts(items);
  }

  /**
   * At most one handler runs. It runs exactly if the command the words lead to has one, read its
   * tokens to the end, got all it requires without conflict, and the hooks accept; it is then called
   * with that command's own values.
   */
  lemma {:induction false} HandlerRunsExactly(c: Command, ts: seq<Token>, hook: Hook)
    ensures var l, calls := Land(c, ts), Parse(c, ts, hook).calls;
            calls == if l.stop.Ended? && l.command.hasHandler && hook(l.command, false) && InOrder(l.command, l.items)
                     then [Invocation(l.command, Merged(FinalValues(l.command, l.items), DynamicAfter(l.items)),
                                      PassthroughAfter(l.items))]
                     else []
    ensures var l := Land(c, ts); DeclaredOrder(l.command, l.items)
  {
    hide Parse, Land, Finish, InOrder, DeclaredOrder, FinalValues, DynamicAfter, PassthroughAfter;
    ParseConcludes(c, ts, hook);
    LandedInOrder(c, ts);
    var l := Land(c, ts);
    FinishInOrder(l.command, l.items, hook);
  }
}
