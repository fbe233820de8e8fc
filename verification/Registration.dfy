/** Declaring arguments: what is refused, and what every list of declared arguments keeps. */
module Registration {
  import opened Native
  import opened Commands

  const HELP := "help"
  const NEGATION := "no-"

  predicate StartsWith(s: string, prefix: string) {
    |prefix| <= |s| && s[..|prefix|] == prefix
  }

  datatype Refusal = ReservedName | ReservedAlias | DuplicateName | DuplicateAlias | NegationClash

  // ------------------------------------------------------------------ invariant

  predicate ShareAlias(a: Argument, b: Argument) {
    exists i, j :: 0 <= i < |a.aliases| && 0 <= j < |b.aliases| && a.aliases[i] != "" && a.aliases[i] == b.aliases[j]
  }

  predicate HasReservedAlias(a: Argument) {
    exists i :: 0 <= i < |a.aliases| && StartsWith(a.aliases[i], "--no-")
  }

  /** Names and aliases are unambiguous, and a negated name stands right after the switch it negates. */
  ghost predicate Registered(args: seq<Argument>) {
    (forall i, j :: 0 <= i < j < |args| ==> args[i].name != args[j].name && !ShareAlias(args[i], args[j]))
    && (forall i :: 0 <= i < |args| ==> !HasReservedAlias(args[i]))
    && forall i :: 0 <= i < |args| && StartsWith(args[i].name, NEGATION) ==>
         i > 0 && args[i].name == NEGATION + args[i - 1].name && IsOnByDefault(args[i - 1]) && args[i].aliases == []
  }

  predicate IsOnByDefault(arg: Argument) {
    arg.kind == Flag && arg.defaultValue == BoolValue(true)
  }

  /** A switch without a default is off. */
  function Completed(arg: Argument): Argument {
    if arg.kind == Flag && arg.defaultValue == NoValue then arg.(defaultValue := BoolValue(false)) else arg
  }

  function Negation(arg: Argument): Argument {
    Argument(NEGATION + arg.name, [], Flag, false, false, false, BoolValue(false), false, false, [])
  }

  /** What an accepted declaration adds. */
  function Added(arg: Argument): seq<Argument> {
    if IsOnByDefault(arg) then [arg, Negation(arg)] else [Completed(arg)]
  }

  ghost predicate Acceptable(args: seq<Argument>, arg: Argument) {
    arg.name != HELP && !StartsWith(arg.name, NEGATION) && !HasReservedAlias(arg)
    && forall i :: 0 <= i < |args| ==> args[i].name != arg.name && !ShareAlias(arg, args[i])
  }

  // ------------------------------------------------------------------ the lemmas

  lemma {:induction false} ShareAliasSymmetric(a: Argument, b: Argument)
    ensures ShareAlias(a, b) <==> ShareAlias(b, a)
  {
  }

  lemma {:induction false} NegationIsNew(args: seq<Argument>, arg: Argument)
    requires Registered(args) && Acceptable(args, arg)
    ensures forall i :: 0 <= i < |args| ==> args[i].name != NEGATION + arg.name
  {
    hide ShareAlias, HasReservedAlias;
    forall i | 0 <= i < |args| ensures args[i].name != NEGATION + arg.name {
      if args[i].name == NEGATION + arg.name {
        assert StartsWith(args[i].name, NEGATION);
        SameSuffix(args[i - 1].name, arg.name);
      }
    }
  }

  lemma {:induction false} SameSuffix(a: string, b: string)
    requires NEGATION + a == NEGATION + b
    ensures a == b
  {
    assert a == (NEGATION + a)[|NEGATION|..] && b == (NEGATION + b)[|NEGATION|..];
  }

  lemma {:induction false} AcceptedStaysRegistered(args: seq<Argument>, arg: Argument)
    requires Registered(args) && Acceptable(args, arg)
    ensures Registered(args + Added(arg))
  {
    hide ShareAlias, HasReservedAlias, StartsWith;
    NegationIsNew(args, arg);
    forall i | 0 <= i < |args| ensures !ShareAlias(args[i], arg) {
      ShareAliasSymmetric(args[i], arg);
    }
    CompletedAliases(arg);
    OneMore(args, Completed(arg));
    if IsOnByDefault(arg) {
      NegationHasNoAlias(arg);
      NegationStarts(arg);
      assert args + Added(arg) == args + [arg] + [Negation(arg)];
      NegatedMore(args + [arg], arg);
    }
  }

  lemma {:induction false} CompletedAliases(arg: Argument)
    ensures HasReservedAlias(Completed(arg)) == HasReservedAlias(arg)
    ensures forall other :: ShareAlias(other, Completed(arg)) <==> ShareAlias(other, arg)
  {
  }

  lemma {:induction false} OneMore(args: seq<Argument>, arg: Argument)
    requires Registered(args) && !StartsWith(arg.name, NEGATION) && !HasReservedAlias(arg)
    requires forall i :: 0 <= i < |args| ==> args[i].name != arg.name && !ShareAlias(args[i], arg)
    ensures Registered(args + [arg])
  {
    hide ShareAlias, HasReservedAlias, StartsWith;
  }

  lemma {:induction false} NegatedMore(args: seq<Argument>, arg: Argument)
    requires Registered(args) && args != [] && args[|args| - 1] == arg && IsOnByDefault(arg)
    requires forall i :: 0 <= i < |args| ==> args[i].name != NEGATION + arg.name
    ensures Registered(args + [Negation(arg)])
  {
    hide ShareAlias, HasReservedAlias, StartsWith;
    NegationHasNoAlias(arg);
  }

  lemma {:induction false} NegationHasNoAlias(arg: Argument)
    ensures !HasReservedAlias(Negation(arg)) && forall other :: !ShareAlias(other, Negation(arg))
  {
  }

  lemma {:induction false} NegationStarts(arg: Argument)
    requires !StartsWith(arg.name, NEGATION)
    ensures arg.name != NEGATION + arg.name
  {
    assert |NEGATION + arg.name| == 3 + |arg.name|;
  }

  // ------------------------------------------------------------------- registering

  class Registry {
    var args: seq<Argument>

    /** Starts with the automatic help argument. */
    constructor (help: Argument)
      requires help.name == HELP && !HasReservedAlias(help)
      ensures args == [help] && Registered(args)
    {
      args := [help];
      new;
      assert HELP[..3][0] == 'h' && NEGATION[0] == 'n';
    }

    /** All or nothing: a refused declaration leaves no trace, not even of its first half. */
    method RegisterArgument(arg: Argument) returns (refusal: Option<Refusal>)
      requires Registered(args)
      modifies this
      ensures Registered(args)
      ensures refusal.None? <==> Acceptable(old(args), arg)
      ensures args == if refusal.None? then old(args) + Added(arg) else old(args)
    {
      hide ShareAlias, HasReservedAlias, StartsWith, Registered;
      if arg.name == HELP || StartsWith(arg.name, NEGATION) { return Some(ReservedName); }
      var reserved := FindReservedAlias(arg);
      if reserved { return Some(ReservedAlias); }
      var taken := FindName(args, arg.name);
      if taken { return Some(DuplicateName); }
      var shared := FindShared(args, arg);
      if shared { return Some(DuplicateAlias); }
      AcceptedStaysRegistered(args, arg);
      NegationIsNew(args, arg);
      ghost var before := args;
      args := args + [Completed(arg)];
      if IsOnByDefault(arg) {
        NegationStarts(arg);
        var clash := FindName(args, NEGATION + arg.name);
        if clash { return Some(NegationClash); }
        args := args + [Negation(arg)];
        assert args == before + Added(arg);
      }
      refusal := None;
    }
  }

  method FindName(args: seq<Argument>, name: string) returns (found: bool)
    ensures found <==> exists i :: 0 <= i < |args| && args[i].name == name
  {
    for k := 0 to |args|
      invariant forall i :: 0 <= i < k ==> args[i].name != name
    {
      if args[k].name == name { return true; }
    }
    found := false;
  }

  method FindReservedAlias(arg: Argument) returns (found: bool)
    ensures found == HasReservedAlias(arg)
  {
    hide StartsWith;
    for k := 0 to |arg.aliases|
      invariant forall i :: 0 <= i < k ==> !StartsWith(arg.aliases[i], "--no-")
    {
      if StartsWith(arg.aliases[k], "--no-") { return true; }
    }
    found := false;
  }

  method FindShared(args: seq<Argument>, arg: Argument) returns (found: bool)
    ensures found <==> exists i :: 0 <= i < |args| && ShareAlias(arg, args[i])
  {
    hide ShareAlias;
    for k := 0 to |args|
      invariant forall i :: 0 <= i < k ==> !ShareAlias(arg, args[i])
    {
      var shared := SharesAlias(arg, args[k]);
      if shared { return true; }
    }
    found := false;
  }

  method SharesAlias(a: Argument, b: Argument) returns (found: bool)
    ensures found == ShareAlias(a, b)
  {
    for i := 0 to |a.aliases|
      invariant forall x, j :: 0 <= x < i && 0 <= j < |b.aliases| ==> a.aliases[x] == "" || a.aliases[x] != b.aliases[j]
    {
      for j := 0 to |b.aliases|
        invariant forall y :: 0 <= y < j ==> a.aliases[i] == "" || a.aliases[i] != b.aliases[y]
      {
        if a.aliases[i] != "" && a.aliases[i] == b.aliases[j] { return true; }
      }
    }
    found := false;
  }

  // ----------------------------------------------------------------------- lookup

  lemma {:induction false} AliasIsSpelled(a: string, b: string, name: string, short: bool)
    requires AliasMatches(a, name, short) && AliasMatches(b, name, short)
    ensures a == b && a != ""
  {
    if short {
      assert a == [a[0]] + a[1..] && b == [b[0]] + b[1..];
    } else {
      assert a == a[..2] + a[2..] && b == b[..2] + b[2..];
    }
  }

  lemma {:induction false} NoneInCommon(a: Argument, b: Argument, x: nat, i: nat, name: string, short: bool)
    requires !ShareAlias(a, b) && x < |a.aliases| && i < |b.aliases| && AliasMatches(b.aliases[i], name, short)
    ensures !AliasMatches(a.aliases[x], name, short)
  {
    if AliasMatches(a.aliases[x], name, short) { AliasIsSpelled(a.aliases[x], b.aliases[i], name, short); }
  }

  /** An alias leads to its argument exactly if no earlier option bears the alias's word as its name. */
  lemma {:induction false} AliasLeadsHome(args: seq<Argument>, k: nat, i: nat, name: string, short: bool)
    requires Registered(args) && k < |args| && !args[k].positional
    requires i < |args[k].aliases| && AliasMatches(args[k].aliases[i], name, short)
    ensures FindKeyword(args, name, short) == Some(args[k]) <==>
            forall j :: 0 <= j < k ==> args[j].positional || args[j].name != name
  {
    hide AliasMatches, HasReservedAlias, StartsWith;
    forall j | 0 <= j < k ensures Matches(args[j], name, short) <==> !args[j].positional && args[j].name == name {
      if x :| 0 <= x < |args[j].aliases| && AliasMatches(args[j].aliases[x], name, short) {
        NoneInCommon(args[j], args[k], x, i, name, short);
      }
    }
    FirstMatch(args, k, name, short);
  }

  lemma {:induction false} FirstMatch(args: seq<Argument>, k: nat, name: string, short: bool)
    requires k < |args| && Matches(args[k], name, short)
    requires forall i, j :: 0 <= i < j < |args| ==> args[i].name != args[j].name
    ensures FindKeyword(args, name, short) == Some(args[k]) <==> forall j :: 0 <= j < k ==>
            !Matches(args[j], name, short)
    decreases k
  {
    hide Matches;
    if k > 0 && !Matches(args[0], name, short) {
      FirstMatch(args[1..], k - 1, name, short);
      assert forall j :: 1 <= j < k ==> args[j] == args[1..][j - 1];
    }
  }

  // ---------------------------------------------------------------------- meaning

  /** Refused are reserved or taken names and reserved or taken aliases; an empty alias is never taken. */
  lemma {:induction false} RefusedExactly(args: seq<Argument>, arg: Argument)
    ensures !Acceptable(args, arg) <==>
            || arg.name == "help" || (exists w: string :: arg.name == "no-" + w)
            || (exists w: string, i :: 0 <= i < |arg.aliases| && arg.aliases[i] == "--no-" + w)
            || (exists k :: 0 <= k < |args| && args[k].name == arg.name)
            || (exists k, i, j :: 0 <= k < |args| && 0 <= i < |arg.aliases| && 0 <= j < |args[k].aliases|
                                  && arg.aliases[i] != "" && arg.aliases[i] == args[k].aliases[j])
  {
    Begins(arg.name, "no-");
    forall i | 0 <= i < |arg.aliases|
      ensures StartsWith(arg.aliases[i], "--no-") <==> exists w: string :: arg.aliases[i] == "--no-" + w
    {
      Begins(arg.aliases[i], "--no-");
    }
    hide StartsWith;
  }

  lemma {:induction false} Begins(s: string, prefix: string)
    ensures StartsWith(s, prefix) <==> exists w: string :: s == prefix + w
  {
    if StartsWith(s, prefix) { assert s == prefix + s[|prefix|..]; }
  }

  /** A switch without default is off; one that is on brings its negation, a switch that is off. */
  lemma {:induction false} AddedMeans(arg: Argument)
    ensures arg.kind != Flag ==> Added(arg) == [arg]
    ensures arg.kind == Flag && arg.defaultValue == NoValue ==> Added(arg) == [arg.(defaultValue := BoolValue(false))]
    ensures arg.kind == Flag && arg.defaultValue == BoolValue(true) ==>
              && |Added(arg)| == 2 && Added(arg)[0] == arg
              && var no := Added(arg)[1];
                 && no.name == "no-" + arg.name && no.kind == Flag && no.defaultValue == BoolValue(false)
                 && no.aliases == [] && !no.positional && !no.required && no.conflictsWith == []
  {
  }
}
