/** What the values of a parse say about the tokens: the last word counts, lists collect, the rest is default. */
module CommandValues {
  import opened Commands
  import opened CommandLaws

  /** The item gives a value to the name. */
  predicate Sets(c: Command, item: Item, name: string) {
    match item
    case Bundle(letters) => name in BundleNames(c.args, letters)
    case Keyword(_, arg, _) => arg.name == name
    case Positional(arg, _) => arg.name == name
    case _ => false
  }

  ghost predicate SetByNone(c: Command, items: seq<Item>, name: string) {
    forall k :: 0 <= k < |items| ==> !Sets(c, items[k], name)
  }

  predicate Agree(a: Values, b: Values, name: string) {
    (name in a <==> name in b) && (name in a ==> a[name] == b[name])
  }

  lemma {:induction false} SetAllSets(values: Values, names: seq<string>, name: string)
    ensures if name in names then name in SetAll(values, names) && SetAll(values, names)[name] == BoolValue(true)
            else Agree(SetAll(values, names), values, name)
    decreases |names|
  {
    if names != [] {
      var before, last := names[..|names| - 1], names[|names| - 1];
      SetAllSets(values, before, name);
      assert names == before + [last];
    }
  }

  /** An item leaves the names alone that it does not set. */
  lemma {:induction false} OthersKeep(c: Command, values: Values, item: Item, name: string)
    requires !Sets(c, item, name)
    ensures Agree(Apply(c, values, item), values, name)
  {
    hide BundleNames, KeywordValue, PositionalValue, SetAll;
    if item.Bundle? { SetAllSets(values, BundleNames(c.args, item.letters), name); }
  }

  lemma {:induction false} AppendItem(c: Command, items: seq<Item>, item: Item)
    ensures ValuesAfter(c, items + [item]) == Apply(c, ValuesAfter(c, items), item)
  {
    hide Apply;
    assert (items + [item])[..|items|] == items;
  }

  /** What no later item sets stays as it is. */
  lemma {:induction false} LaterItemsKeep(c: Command, items: seq<Item>, later: seq<Item>, name: string)
    requires SetByNone(c, later, name)
    ensures Agree(ValuesAfter(c, items + later), ValuesAfter(c, items), name)
    decreases |later|
  {
    hide ValuesAfter, Apply, Sets;
    if later == [] {
      assert items + later == items;
    } else {
      var before, last := later[..|later| - 1], later[|later| - 1];
      assert items + later == items + before + [last];
      assert forall k :: 0 <= k < |before| ==> before[k] == later[k];
      LaterItemsKeep(c, items, before, name);
      AppendItem(c, items + before, last);
      assert !Sets(c, last, name);
      OthersKeep(c, ValuesAfter(c, items + before), last, name);
    }
  }

  /** A name nothing was said about has its default. */
  lemma {:induction false} UnsetIsDefault(c: Command, items: seq<Item>, name: string)
    requires SetByNone(c, items, name)
    ensures Agree(ValuesAfter(c, items), Defaults(c.args), name)
  {
    hide SetByNone, Agree, Defaults;
    LaterItemsKeep(c, [], items, name);
    assert [] + items == items;
  }

  /**
   * The last item that sets a name decides: combined flags and a bare switch give true, a single
   * value is the token's own, a positional is what it was read from, a list adds to what was there.
   */
  lemma {:induction false} LastDecides(c: Command, items: seq<Item>, item: Item, later: seq<Item>, name: string)
    requires Sets(c, item, name) && SetByNone(c, later, name)
    ensures var values := ValuesAfter(c, items + [item] + later);
            name in values && values[name] ==
              match item
              case Bundle(_) => BoolValue(true)
              case Keyword(_, arg, ts) => KeywordValue(arg, ts, ValuesAfter(c, items))
              case Positional(arg, ts) => PositionalValue(arg, ts)
              case _ => NoValue
  {
    hide ValuesAfter, KeywordValue, PositionalValue, BundleNames, SetAll, SetByNone;
    LaterItemsKeep(c, items + [item], later, name);
    AppendItem(c, items, item);
    if item.Bundle? { SetAllSets(ValuesAfter(c, items), BundleNames(c.args, item.letters), name); }
  }

  // -------------------------------------------------------------------- lists

  /** All the values given to a name, over all its occurrences. */
  function ValuesGiven(items: seq<Item>, name: string): seq<Token> {
    if items == [] then []
    else
      var before, last := ValuesGiven(items[..|items| - 1], name), items[|items| - 1];
      if last.Keyword? && last.arg.name == name then before + last.values else before
  }

  /** A list option everywhere it occurs. */
  ghost predicate ListOption(c: Command, items: seq<Item>, name: string) {
    forall k :: 0 <= k < |items| && Sets(c, items[k], name) ==>
      items[k].Keyword? && items[k].arg.kind == Multiple && !items[k].arg.isJson && items[k].values != []
  }

  lemma {:induction false} TextsAppend(a: seq<Token>, b: seq<Token>)
    ensures Texts(a + b) == Texts(a) + Texts(b)
  {
    hide Texts, TextOf;
  }

  /** An option with several values collects those of all its occurrences, after its default. */
  lemma {:induction false} ListsCollect(c: Command, items: seq<Item>, name: string)
    requires ListOption(c, items, name)
    ensures ListSoFar(ValuesAfter(c, items), name) ==
            ListSoFar(Defaults(c.args), name) + Texts(ValuesGiven(items, name))
    decreases |items|
  {
    hide *;
    if items == [] {
      NothingCollected(c, name);
    } else {
      var before, last := items[..|items| - 1], items[|items| - 1];
      assert items == before + [last];
      ListOptionShrinks(c, before, last, name);
      ListsCollect(c, before, name);
      CollectOne(c, before, last, name);
    }
  }

  lemma {:induction false} NothingCollected(c: Command, name: string)
    ensures ListSoFar(ValuesAfter(c, []), name) == ListSoFar(Defaults(c.args), name) + Texts(ValuesGiven([], name))
  {
    hide Defaults, ListSoFar;
    assert ListSoFar(Defaults(c.args), name) + [] == ListSoFar(Defaults(c.args), name);
  }

  lemma {:induction false} ListOptionShrinks(c: Command, before: seq<Item>, last: Item, name: string)
    requires ListOption(c, before + [last], name)
    ensures ListOption(c, before, name) && ListOption(c, [last], name)
  {
    hide Sets;
    var items := before + [last];
    assert forall k :: 0 <= k < |before| ==> before[k] == items[k];
    assert items[|before|] == last;
  }

  lemma {:induction false} CollectOne(c: Command, before: seq<Item>, last: Item, name: string)
    requires ListOption(c, [last], name)
    requires ListSoFar(ValuesAfter(c, before), name) ==
            ListSoFar(Defaults(c.args), name) + Texts(ValuesGiven(before, name))
    ensures ListSoFar(ValuesAfter(c, before + [last]), name) ==
            ListSoFar(Defaults(c.args), name) + Texts(ValuesGiven(before + [last], name))
  {
    hide ValuesAfter, Apply, Defaults, Texts, Sets, ValuesGiven;
    assert [last][0] == last;
    AppendItem(c, before, last);
    ValuesGivenAppend(before, last, name);
    if Sets(c, last, name) {
      ListGrows(c, ValuesAfter(c, before), last, name);
      TextsAppend(ValuesGiven(before, name), last.values);
    } else {
      OthersKeep(c, ValuesAfter(c, before), last, name);
      NotNamed(c, last, name);
    }
  }

  lemma {:induction false} ValuesGivenAppend(before: seq<Item>, last: Item, name: string)
    ensures ValuesGiven(before + [last], name) ==
            ValuesGiven(before, name) + if last.Keyword? && last.arg.name == name then last.values else []
  {
    assert (before + [last])[..|before|] == before;
  }

  lemma {:induction false} NotNamed(c: Command, item: Item, name: string)
    requires !Sets(c, item, name)
    ensures !(item.Keyword? && item.arg.name == name)
  {
  }

  lemma {:induction false} ListGrows(c: Command, values: Values, item: Item, name: string)
    requires Sets(c, item, name) && item.Keyword? && item.arg.kind == Multiple && !item.arg.isJson && item.values != []
    ensures item.arg.name == name
    ensures ListSoFar(Apply(c, values, item), name) == ListSoFar(values, name) + Texts(item.values)
  {
    hide Texts;
  }

  // ------------------------------------------------------- what the handler is given

  ghost predicate DistinctNames(args: seq<Argument>) {
    forall i, j :: 0 <= i < j < |args| ==> args[i].name != args[j].name
  }

  lemma {:induction false} NamedOnce(args: seq<Argument>, a: Argument, b: Argument)
    requires DistinctNames(args) && a in args && b in args && a.name == b.name
    ensures a == b
  {
    var i :| 0 <= i < |args| && args[i] == a;
    var j :| 0 <= j < |args| && args[j] == b;
  }

  /** What is true of every item a command reads. */
  ghost predicate DeclaredItem(c: Command, item: Item) {
    match item
    case Bundle(letters) => BundleFrom(c.args, letters).Ended?
    case Keyword(_, arg, values) => arg in c.args && !arg.positional && (arg.kind == Multiple && !arg.isJson ==>
      values != [])
    case Positional(arg, _) => arg in Positionals(c)
    case _ => true
  }

  ghost predicate AllDeclared(c: Command, items: seq<Item>) {
    forall k :: 0 <= k < |items| ==> DeclaredItem(c, items[k])
  }

  lemma {:induction false} NextIsDeclared(c: Command, ts: seq<Token>, pos: nat)
    requires ts != [] && NextItem(c, ts, pos).Took?
    ensures DeclaredItem(c, NextItem(c, ts, pos).item)
  {
    hide FindSubcommand, FlagStep, RunOf, ValueOf, PositionalsOf, BundleFrom;
    if IsFlag(ts[0]) { FlagIsDeclared(c, ts[0], ts[1..]); }
  }

  lemma {:induction false} FlagIsDeclared(c: Command, flag: Token, more: seq<Token>)
    requires IsFlag(flag) && FlagStep(c, flag, more).Took?
    ensures DeclaredItem(c, FlagStep(c, flag, more).item)
  {
    hide RunOf, ValueOf, PositionalsOf, BundleFrom, FindKeyword, IsText;
    if more != [] {
      forall coerce: bool ensures !ValueOf(more[0], Multiple, coerce).NoValue? && !IsFlag(more[0]) ==>
        RunOf(more) != [] {
        SeveralAreText(more[0], coerce);
      }
    }
  }

  lemma {:induction false} ReadIsDeclared(c: Command, ts: seq<Token>, pos: nat)
    ensures AllDeclared(c, ReadAll(c, ts, pos).items)
    decreases |ts|
  {
    hide ReadAll, NextItem, Left, RenderAll, DeclaredItem, Render;
    if ts == [] || !NextItem(c, ts, pos).Took? {
      ReadNone(c, ts, pos);
    } else {
      ReadOne(c, ts, pos);
      NextIsDeclared(c, ts, pos);
      var item := NextItem(c, ts, pos).item;
      ReadIsDeclared(c, ts[|Render(item)|..], pos + Advance(item));
    }
  }

  lemma {:induction false} LandedIsDeclared(c: Command, ts: seq<Token>)
    ensures AllDeclared(Land(c, ts).command, Land(c, ts).items)
    decreases |ts|
  {
    hide ReadAll, Left, AllDeclared;
    ReadIsDeclared(c, ts, 0);
    EnterIsShorter(c, ts, 0);
    var stop := ReadAll(c, ts, 0).stop;
    if stop.Enter? { LandedIsDeclared(stop.command, stop.rest); }
  }

  /** Combined flags name switches. */
  lemma {:induction false} LettersAreSwitches(args: seq<Argument>, letters: string, i: nat)
    requires BundleFrom(args, letters).Ended? && i < |letters|
    ensures var found := FindKeyword(args, letters[i..i + 1], true); found.Some? && found.value.kind == Flag
    decreases i
  {
    hide FindKeyword;
    assert letters[..1] == letters[0..1];
    if i > 0 {
      LettersAreSwitches(args, letters[1..], i - 1);
      assert letters[1..][i - 1..i] == letters[i..i + 1];
    }
  }

  lemma {:induction false} NameOfLetter(args: seq<Argument>, letters: string, name: string) returns (i: nat)
    requires name in BundleNames(args, letters)
    ensures i < |letters| && FindKeyword(args, letters[i..i + 1], true).Some?
            && FindKeyword(args, letters[i..i + 1], true).value.name == name
    decreases |letters|
  {
    hide FindKeyword;
    var n := |letters| - 1;
    assert letters[n..] == letters[n..n + 1];
    var found := FindKeyword(args, letters[n..], true);
    if found.Some? && found.value.name == name {
      i := n;
    } else {
      i := NameOfLetter(args, letters[..n], name);
      assert letters[..n][i..i + 1] == letters[i..i + 1];
    }
  }

  lemma {:induction false} BundleSetsSwitches(c: Command, letters: string, name: string) returns (arg: Argument)
    requires BundleFrom(c.args, letters).Ended? && name in BundleNames(c.args, letters)
    ensures arg in c.args && arg.name == name && !arg.positional && arg.kind == Flag
  {
    hide FindKeyword, BundleFrom, BundleNames;
    var i := NameOfLetter(c.args, letters, name);
    LettersAreSwitches(c.args, letters, i);
    arg := FindKeyword(c.args, letters[i..i + 1], true).value;
  }

  /** Whatever sets the name of an option is that option's own item, or for a switch combined flags. */
  lemma {:induction false} SetByItsOwn(c: Command, item: Item, arg: Argument)
    requires DistinctNames(c.args) && arg in c.args && DeclaredItem(c, item) && Sets(c, item, arg.name)
    ensures !arg.positional ==> (item.Keyword? && item.arg == arg) || (item.Bundle? && arg.kind == Flag)
    ensures arg.positional ==> item.Positional? && item.arg == arg
  {
    hide DistinctNames, BundleNames, BundleFrom, PositionalsOf;
    match item
    case Bundle(letters) =>
      var other := BundleSetsSwitches(c, letters, arg.name);
      NamedOnce(c.args, arg, other);
    case Keyword(_, other, _) => NamedOnce(c.args, arg, other);
    case Positional(other, _) => NamedOnce(c.args, arg, other);
  }

  /** The items read for an option with several values are as ListsCollect wants them. */
  lemma {:induction false} ReadListOption(c: Command, items: seq<Item>, arg: Argument)
    requires DistinctNames(c.args) && AllDeclared(c, items)
    requires arg in c.args && !arg.positional && arg.kind == Multiple && !arg.isJson
    ensures ListOption(c, items, arg.name)
  {
    hide DistinctNames, Sets, BundleFrom, PositionalsOf;
    forall k | 0 <= k < |items| && Sets(c, items[k], arg.name)
      ensures items[k].Keyword? && items[k].arg.kind == Multiple && !items[k].arg.isJson && items[k].values != []
    {
      SetByItsOwn(c, items[k], arg);
    }
  }

  lemma {:induction false} DefaultOf(args: seq<Argument>, arg: Argument)
    requires DistinctNames(args) && arg in args && !arg.isHelp && !arg.isJson
    ensures arg.name in Defaults(args) && Defaults(args)[arg.name] == arg.defaultValue
    decreases |args|
  {
    var before, last := args[..|args| - 1], args[|args| - 1];
    assert args == before + [last];
    if arg in before {
      DefaultOf(before, arg);
      var i :| 0 <= i < |before| && before[i] == arg;
      assert args[i] == arg && args[i].name != last.name;
    }
  }

  lemma {:induction false} DefaultsAgain(values: Values, ps: seq<Argument>)
    requires forall p :: p in ps ==> p.name in values && values[p.name] == p.defaultValue
    ensures WithDefaults(values, ps) == values
    decreases |ps|
  {
    if ps != [] {
      DefaultsAgain(values, ps[..|ps| - 1]);
      assert ps[|ps| - 1] in ps;
    }
  }

  lemma {:induction false} PositionalsDistinct(args: seq<Argument>)
    requires DistinctNames(args)
    ensures DistinctNames(PositionalsOf(args))
    decreases |args|
  {
    if args != [] {
      var more := args[1..];
      assert forall k :: 0 <= k < |more| ==> more[k] == args[k + 1];
      PositionalsDistinct(more);
      forall p | p in PositionalsOf(more) ensures p.name != args[0].name {
        var k :| 0 <= k < |more| && more[k] == p;
      }
    }
  }

  lemma {:induction false} GivenIsPositionalItem(items: seq<Item>, k: nat) returns (i: nat)
    requires k < |items| && items[k].Positional?
    ensures i < |PositionalItems(items)| && PositionalItems(items)[i] == items[k]
    decreases |items|
  {
    if k == |items| - 1 {
      i := |PositionalItems(items)| - 1;
    } else {
      i := GivenIsPositionalItem(items[..|items| - 1], k);
    }
  }

  /** A positional that was not come to was set by nothing. */
  lemma {:induction false} UnfilledIsUnset(c: Command, items: seq<Item>, n: nat)
    requires DistinctNames(c.args) && DeclaredOrder(c, items) && AllDeclared(c, items)
    requires FilledAfter(items) <= n < |Positionals(c)|
    ensures SetByNone(c, items, Positionals(c)[n].name)
  {
    hide DistinctNames, Sets, DeclaredItem, PositionalsOf, PositionalItems, FilledAfter;
    var p := Positionals(c)[n];
    assert p in Positionals(c);
    FilledCounts(items);
    forall k | 0 <= k < |items| ensures !Sets(c, items[k], p.name) {
      if Sets(c, items[k], p.name) {
          SetByItsOwn(c, items[k], p);
        var i := GivenIsPositionalItem(items, k);
        assert For(PositionalItems(items)[i], Positionals(c), i);
        PositionalsDistinct(c.args);
        SameName(Positionals(c), i, n);
      }
    }
  }

  lemma {:induction false} SameName(args: seq<Argument>, i: nat, n: nat)
    requires DistinctNames(args) && i < n < |args|
    ensures args[i].name != args[n].name
  {
  }

  /** The last pass over the positionals changes nothing: those not come to have their defaults already. */
  lemma {:induction false} DefaultsWereThere(c: Command, items: seq<Item>)
    requires DistinctNames(c.args) && DeclaredOrder(c, items) && AllDeclared(c, items)
    ensures FinalValues(c, items) == ValuesAfter(c, items)
  {
    hide DistinctNames, AllDeclared, PositionalsOf, ValuesAfter, Defaults, FilledAfter, SetByNone, DeclaredOrder,
      WithDefaults;
    var filled := FilledAfter(items);
    if filled <= |Positionals(c)| {
      var unfilled := Positionals(c)[filled..];
      forall p | p in unfilled ensures p.name in ValuesAfter(c, items) &&
        ValuesAfter(c, items)[p.name] == p.defaultValue {
        var k :| 0 <= k < |unfilled| && unfilled[k] == p;
        assert Positionals(c)[filled + k] == p;
        assert p in Positionals(c);
        UnfilledIsUnset(c, items, filled + k);
        UnsetIsDefault(c, items, p.name);
        DefaultOf(c.args, p);
      }
      DefaultsAgain(ValuesAfter(c, items), unfilled);
    }
  }

  /**
   * A handler gets, for each name, the dynamic value given under it if there is one, and else what the
   * items of its own command make of it.
   */
  lemma {:induction false} HandlerGets(root: Command, ts: seq<Token>, hook: Hook, name: string)
    requires Parse(root, ts, hook).calls != [] && DistinctNames(Land(root, ts).command.args)
    ensures var l, args := Land(root, ts), Parse(root, ts, hook).calls[0].args;
            Agree(args, if name in DynamicAfter(l.items) then DynamicAfter(l.items)
              else ValuesAfter(l.command, l.items), name)
  {
    hide Parse, Land, InOrder, DeclaredOrder, FinalValues, ValuesAfter, DynamicAfter, PassthroughAfter, AllDeclared,
      DistinctNames;
    var l := Land(root, ts);
    HandlerRunsExactly(root, ts, hook);
    LandedIsDeclared(root, ts);
    DefaultsWereThere(l.command, l.items);
  }

  /** An option with several values reaches the handler as its default and all values given to it, in order. */
  lemma {:induction false} HandlerGetsList(root: Command, ts: seq<Token>, hook: Hook, arg: Argument)
    requires Parse(root, ts, hook).calls != [] && DistinctNames(Land(root, ts).command.args)
    requires arg in Land(root, ts).command.args && !arg.positional && arg.kind == Multiple && !arg.isJson
    requires arg.name !in DynamicAfter(Land(root, ts).items)
    ensures var l, args := Land(root, ts), Parse(root, ts, hook).calls[0].args;
            ListSoFar(args, arg.name) ==
            ListSoFar(Defaults(l.command.args), arg.name) + Texts(ValuesGiven(l.items, arg.name))
  {
    hide Parse, Land, ValuesAfter, DynamicAfter, AllDeclared, DistinctNames, ValuesGiven, Defaults, Texts, ListOption;
    var l := Land(root, ts);
    HandlerGets(root, ts, hook, arg.name);
    LandedIsDeclared(root, ts);
    ReadListOption(l.command, l.items, arg);
    ListsCollect(l.command, l.items, arg.name);
  }
}
