/**
 * Collecting the properties of an interface together with everything it inherits, over an
 * `extends` graph that may have cycles and unknown bases.
 */
module Closure {

  /** An interface or property name. */
  datatype Ident = Ident(text: string)

  datatype Prop = Prop(name: Ident, typ: string, optional: bool, literal: bool)

  /** `bases` are the type names as written in the extends clause. */
  datatype Iface = Iface(name: Ident, properties: seq<Prop>, bases: seq<string>)

  /** Interfaces by name. */
  type Table = map<Ident, Iface>

  ghost predicate Keyed(g: Table) {
    forall n :: n in g ==> g[n].name == n
  }

  /** The part of a type name after its last dot. */
  function StripNamespace(t: string): string {
    if t == [] || t[|t| - 1] == '.' then [] else
      StripNamespace(t[..|t| - 1]) + [t[|t| - 1]]
  }

  /** It has no dot, ends the name, and begins it or follows a dot. */
  lemma {:induction false} StripsToLastDot(t: string)
    ensures var s := StripNamespace(t);
            '.' !in s && |s| <= |t| && s == t[|t| - |s|..] && (|s| < |t| ==> t[|t| - |s| - 1] == '.')
    decreases |t|
  {
    if t != [] && t[|t| - 1] != '.' {
      var before, s := t[..|t| - 1], StripNamespace(t[..|t| - 1]);
      StripsToLastDot(before);
      assert t[|t| - 1 - |s|..] == before[|before| - |s|..] + [t[|t| - 1]];
    }
  }

  function StripAll(bases: seq<string>): seq<Ident> {
    if bases == [] then [] else [Ident(StripNamespace(bases[0]))] + StripAll(bases[1..])
  }

  // --------------------------------------------------------------- reachability

  ghost predicate Extends(g: Table, a: Ident, b: Ident) {
    a in g && b in g && b in StripAll(g[a].bases)
  }

  ghost predicate Path(g: Table, p: seq<Ident>) {
    |p| == 1 || (|p| > 1 && Extends(g, p[0], p[1]) && Path(g, p[1..]))
  }

  ghost predicate Reaches(g: Table, a: Ident, b: Ident) {
    exists p :: Path(g, p) && p[0] == a && p[|p| - 1] == b
  }

  // ------------------------------------------------------------------ the walk

  function Elements(s: seq<Ident>): set<Ident> {
    set x | x in s
  }

  /** Interfaces newly visited from `n`, bases before the interface itself. */
  function Visit(g: Table, n: Ident, visited: set<Ident>): seq<Ident>
    decreases g.Keys - visited, 0
  {
    if n in visited || n !in g then []
    else
      assert n in g.Keys - visited && n !in g.Keys - (visited + {n});
      VisitAll(g, StripAll(g[n].bases), visited + {n}) + [n]
  }

  function VisitAll(g: Table, ns: seq<Ident>, visited: set<Ident>): seq<Ident>
    decreases g.Keys - visited, |ns|
  {
    if ns == [] then [] else
      var first := Visit(g, ns[0], visited);
      assert g.Keys - (visited + Elements(first)) <= g.Keys - visited;
      first + VisitAll(g, ns[1..], visited + Elements(first))
  }

  ghost predicate Distinct(s: seq<Ident>) {
    forall i, j :: 0 <= i < j < |s| ==> s[i] != s[j]
  }

  /** New, known, distinct, and with every known base visited too. */
  ghost predicate Good(g: Table, order: seq<Ident>, visited: set<Ident>) {
    && Distinct(order) && Elements(order) !! visited && Elements(order) <= g.Keys
    && forall a, b :: a in order && Extends(g, a, b) ==> b in visited || b in order
  }

  lemma {:induction false} VisitGood(g: Table, n: Ident, visited: set<Ident>)
    ensures Good(g, Visit(g, n, visited), visited)
    ensures n in g ==> n in visited || n in Visit(g, n, visited)
    decreases g.Keys - visited, 0
  {
    if n !in visited && n in g {
      assert n in g.Keys - visited && n !in g.Keys - (visited + {n});
      var ns := StripAll(g[n].bases);
      VisitAllGood(g, ns, visited + {n});
      CloseNode(g, n, ns, VisitAll(g, ns, visited + {n}), visited);
    }
  }

  lemma {:induction false} CloseNode(g: Table, n: Ident, ns: seq<Ident>, inner: seq<Ident>, visited: set<Ident>)
    requires n !in visited && n in g && ns == StripAll(g[n].bases)
    requires Good(g, inner, visited + {n})
    requires forall b :: b in ns && b in g ==> b in visited + {n} || b in inner
    ensures Good(g, inner + [n], visited)
  {
    assert [n][0] == n && Elements([n]) == {n};
    forall z | z in inner + [n] ensures z !in visited && z in g {
      if z in inner { assert z in Elements(inner); }
    }
    assert Elements(inner + [n]) !! visited && Elements(inner + [n]) <= g.Keys;
    forall i | 0 <= i < |inner| ensures inner[i] != n { assert inner[i] in Elements(inner); }
    assert Distinct(inner + [n]);
    forall a, b | a in inner + [n] && Extends(g, a, b) ensures b in visited || b in inner + [n] {
      if a in inner { assert b in visited + {n} || b in inner; }
    }
  }

  lemma {:induction false} VisitAllGood(g: Table, ns: seq<Ident>, visited: set<Ident>)
    ensures Good(g, VisitAll(g, ns, visited), visited)
    ensures forall b :: b in ns && b in g ==> b in visited || b in VisitAll(g, ns, visited)
    decreases g.Keys - visited, |ns|
  {
    if ns != [] {
      var first := Visit(g, ns[0], visited);
      assert g.Keys - (visited + Elements(first)) <= g.Keys - visited;
      VisitGood(g, ns[0], visited);
      VisitAllGood(g, ns[1..], visited + Elements(first));
      var rest := VisitAll(g, ns[1..], visited + Elements(first));
      JoinGood(g, first, rest, visited);
    }
  }

  lemma {:induction false} JoinGood(g: Table, x: seq<Ident>, y: seq<Ident>, visited: set<Ident>)
    requires Good(g, x, visited) && Good(g, y, visited + Elements(x))
    ensures Good(g, x + y, visited)
  {
    forall i, j | 0 <= i < j < |x + y| ensures (x + y)[i] != (x + y)[j] {
      if i < |x| <= j {
        assert x[i] in Elements(x) && y[j - |x|] in Elements(y);
      }
    }
    forall z | z in x + y ensures z !in visited && z in g {
      if z in x { assert z in Elements(x); } else { assert z in Elements(y); }
    }
    assert Elements(x + y) !! visited && Elements(x + y) <= g.Keys;
    forall a, b | a in x + y && Extends(g, a, b) ensures b in visited || b in x + y {
      if a !in x && b in visited + Elements(x) {}
    }
  }

  // ------------------------------------------- the walk reaches exactly what is reachable

  lemma {:induction false} ReachesSelf(g: Table, a: Ident)
    ensures Reaches(g, a, a)
  {
    assert Path(g, [a]) && [a][0] == a && [a][|[a]| - 1] == a;
  }

  lemma {:induction false} ReachesThrough(g: Table, a: Ident, b: Ident, c: Ident)
    requires Extends(g, a, b) && Reaches(g, b, c)
    ensures Reaches(g, a, c)
  {
    hide Extends;
    var p :| Path(g, p) && p[0] == b && p[|p| - 1] == c;
    Longer(g, a, p);
  }

  lemma {:induction false} Longer(g: Table, a: Ident, p: seq<Ident>)
    requires Path(g, p) && Extends(g, a, p[0])
    ensures Path(g, [a] + p) && ([a] + p)[0] == a && ([a] + p)[|[a] + p| - 1] == p[|p| - 1]
  {
    hide Extends;
    assert ([a] + p)[1..] == p;
  }

  lemma {:induction false} VisitReaches(g: Table, n: Ident, visited: set<Ident>)
    ensures forall m :: m in Visit(g, n, visited) ==> Reaches(g, n, m)
    decreases g.Keys - visited, 0
  {
    hide Reaches;
    if n !in visited && n in g {
      assert n in g.Keys - visited && n !in g.Keys - (visited + {n});
      ReachesSelf(g, n);
      VisitAllReaches(g, n, StripAll(g[n].bases), visited + {n});
    }
  }

  lemma {:induction false} VisitAllReaches(g: Table, from: Ident, ns: seq<Ident>, visited: set<Ident>)
    requires forall b :: b in ns && b in g ==> Extends(g, from, b)
    ensures forall m :: m in VisitAll(g, ns, visited) ==> Reaches(g, from, m)
    decreases g.Keys - visited, |ns|
  {
    hide Reaches;
    if ns != [] {
      var first := Visit(g, ns[0], visited);
      assert g.Keys - (visited + Elements(first)) <= g.Keys - visited;
      VisitReaches(g, ns[0], visited);
      forall m | m in first ensures Reaches(g, from, m) {
        assert ns[0] in g;
        ReachesThrough(g, from, ns[0], m);
      }
      VisitAllReaches(g, from, ns[1..], visited + Elements(first));
    }
  }

  /** A set closed under `extends` holds the end of every path that starts in it. */
  lemma {:induction false} PathStays(g: Table, order: seq<Ident>, p: seq<Ident>)
    requires Good(g, order, {}) && Path(g, p) && p[0] in order
    ensures p[|p| - 1] in order
    decreases |p|
  {
    if |p| > 1 {
      PathStays(g, order, p[1..]);
    }
  }

  /** From a known interface the walk visits exactly the reachable ones, each once. */
  lemma {:induction false} VisitsExactlyReachable(g: Table, start: Ident)
    requires start in g
    ensures Distinct(Visit(g, start, {}))
    ensures forall m :: m in Visit(g, start, {}) <==> Reaches(g, start, m)
  {
    var order := Visit(g, start, {});
    VisitGood(g, start, {});
    VisitReaches(g, start, {});
    forall m | Reaches(g, start, m) ensures m in order {
      var p :| Path(g, p) && p[0] == start && p[|p| - 1] == m;
      PathStays(g, order, p);
    }
  }

  // ------------------------------------------------------------------ properties

  function Names(ps: seq<Prop>): set<Ident> {
    set p | p in ps :: p.name
  }

  /** Adds the properties whose names are new, in order. */
  function AddNew(acc: seq<Prop>, ps: seq<Prop>): seq<Prop>
    decreases |ps|
  {
    if ps == [] then acc else
      AddNew(if ps[0].name in Names(acc) then acc else acc + [ps[0]], ps[1..])
  }

  /** The properties of interfaces in visiting order. */
  function AddFrom(g: Table, acc: seq<Prop>, order: seq<Ident>): seq<Prop>
    requires forall n :: n in order ==> n in g
    decreases |order|
  {
    if order == [] then acc else AddFrom(g, AddNew(acc, g[order[0]].properties), order[1..])
  }

  ghost predicate UniqueNames(ps: seq<Prop>) {
    forall i, j :: 0 <= i < j < |ps| ==> ps[i].name != ps[j].name
  }

  lemma {:induction false} NamesAppend(acc: seq<Prop>, p: Prop)
    ensures Names(acc + [p]) == Names(acc) + {p.name}
  {
    forall x | x in Names(acc) ensures x in Names(acc + [p]) {
      var q :| q in acc && q.name == x;
      assert q in acc + [p];
    }
    assert p in acc + [p];
  }

  lemma {:induction false} NamesFirst(ps: seq<Prop>)
    requires ps != []
    ensures Names(ps) == {ps[0].name} + Names(ps[1..])
  {
    forall x | x in Names(ps) ensures x in {ps[0].name} + Names(ps[1..]) {
      var q :| q in ps && q.name == x;
      if q != ps[0] { assert q in ps[1..]; }
    }
    assert ps[0] in ps;
  }

  lemma {:induction false} AddNewNames(acc: seq<Prop>, ps: seq<Prop>)
    requires UniqueNames(acc)
    ensures UniqueNames(AddNew(acc, ps)) && acc <= AddNew(acc, ps)
    ensures Names(AddNew(acc, ps)) == Names(acc) + Names(ps)
    ensures forall p :: p in AddNew(acc, ps) ==> p in acc || p in ps
    decreases |ps|
  {
    if ps != [] {
      var p := ps[0];
      var next := if p.name in Names(acc) then acc else acc + [p];
      NamesAppend(acc, p);
      forall i | 0 <= i < |acc| ensures acc[i].name in Names(acc) {}
      AddNewNames(next, ps[1..]);
      NamesFirst(ps);
    }
  }

  lemma {:induction false} AddFromNames(g: Table, acc: seq<Prop>, order: seq<Ident>)
    requires (forall n :: n in order ==> n in g) && UniqueNames(acc)
    ensures UniqueNames(AddFrom(g, acc, order))
    ensures forall x :: x in Names(AddFrom(g, acc, order)) <==>
              x in Names(acc) || exists n :: n in order && x in Names(g[n].properties)
    ensures forall p :: p in AddFrom(g, acc, order) ==> p in acc || exists n :: n in order && p in g[n].properties
    decreases |order|
  {
    if order != [] {
      hide AddNew, Names, UniqueNames;
      var next := AddNew(acc, g[order[0]].properties);
      AddNewNames(acc, g[order[0]].properties);
      AddFromNames(g, next, order[1..]);
      assert order[0] in order;
    }
  }

  /**
   * What collecting from an interface means: the names declared by the interfaces reachable from it,
   * each name once, each property as one of those interfaces declares it.
   */
  lemma {:induction false} CollectsReachableProperties(g: Table, start: Ident)
    requires start in g
    ensures (forall n :: n in Visit(g, start, {}) ==> n in g)
    ensures
      var ps := AddFrom(g, [], Visit(g, start, {}));
      && UniqueNames(ps)
      && (forall x :: x in Names(ps) <==> exists n :: n in g && Reaches(g, start, n) && x in Names(g[n].properties))
      && (forall p :: p in ps ==> exists n :: n in g && Reaches(g, start, n) && p in g[n].properties)
  {
    var order := Visit(g, start, {});
    VisitGood(g, start, {});
    VisitsExactlyReachable(g, start);
    hide Reaches, Visit, Names, UniqueNames, AddFrom;
    forall n | n in order ensures n in g { assert n in Elements(order); }
    assert UniqueNames([]) by { EmptyUnique(); }
    AddFromNames(g, [], order);
    EmptyUnique();
  }

  lemma {:induction false} EmptyUnique()
    ensures UniqueNames([]) && Names([]) == {}
  {
  }

  // ----------------------------------------------------------------- computation

  /** The closure's shared variables, and the graph they walk: the table with the start in its own place. */
  class Collector {
    const table: Table
    ghost const root: Ident
    ghost const g: Table
    var allProps: seq<Prop>
    var fieldsSeen: set<Ident>
    var visited: set<Ident>

    constructor (table: Table, ghost start: Iface)
      requires Keyed(table)
      ensures this.table == table && root == start.name && g == table[start.name := start]
      ensures Valid() && allProps == [] && visited == {}
    {
      this.table, root, g := table, start.name, table[start.name := start];
      allProps, fieldsSeen, visited := [], {}, {};
    }

    ghost predicate Valid()
      reads this
    {
      && Keyed(g) && Keyed(table) && fieldsSeen == Names(allProps) && g.Keys == table.Keys + {root}
      && forall n :: n in table && n != root ==> g[n] == table[n]
    }

    /** The recursive closure: bases first, then the interface's own properties. */
    method CollectFromBase(current: Iface)
      requires Valid()
      requires current.name in visited || (current.name in g && g[current.name] == current)
      requires root in visited || root == current.name
      modifies this
      ensures Valid() && root in visited
      ensures Walked(Visit(g, current.name, old(visited)), old(visited), old(allProps))
      decreases |g.Keys - visited|, 0
    {
      hide Visit, VisitAll, StripAll, Names, Adds, Keyed, AddNew, Elements, AddFrom;
      ghost var before, props := visited, allProps;
      if current.name in visited {
        VisitNothing(g, current.name, before, props);
        return;
      }
      ghost var inner := VisitAll(g, StripAll(current.bases), before + {current.name});
      visited := visited + {current.name};
      FewerLeft(g.Keys, before, visited, current.name);
      CollectBases(current.bases);
      ghost var mid := allProps;
      AddProperties(current.properties);
      NodeAdds(g, current.name, inner, before, props, visited, mid);
    }

    /** The interfaces in `order` have been visited on top of `before`, and their properties added. */
    ghost predicate Walked(order: seq<Ident>, before: set<Ident>, props: seq<Prop>)
      reads this
    {
      Adds(g, order, before, props, visited, allProps)
    }

    /** The loop over the `extends` list. */
    method CollectBases(bases: seq<string>)
      requires Valid() && root in visited
      modifies this
      ensures Valid() && root in visited
      ensures Walked(VisitAll(g, StripAll(bases), old(visited)), old(visited), old(allProps))
      decreases |g.Keys - visited|, |bases| + 1
    {
      hide Visit, VisitAll, StripAll, Names, Adds, Keyed, Elements, StripNamespace, AddFrom;
      ghost var before, props := visited, allProps;
      NoBases(g, before, props);
      if bases == [] { return; }
      var baseName := Ident(StripNamespace(bases[0]));
      ghost var first := Visit(g, baseName, before);
      FirstBase(g, bases, before, props);
      assert baseName in table ==> table[baseName].name == baseName by { KeyedAt(table, baseName); }
      if baseName in table {
        CollectFromBase(table[baseName]);
      }
      ghost var mid, midProps := visited, allProps;
      AddsGrows(g, first, before, props, mid, midProps);
      CollectBases(bases[1..]);
      AddsJoin(g, first, VisitAll(g, StripAll(bases[1..]), mid), before, props, mid, midProps, visited, allProps);
    }

    method AddProperties(properties: seq<Prop>)
      requires fieldsSeen == Names(allProps)
      modifies this`allProps, this`fieldsSeen
      ensures fieldsSeen == Names(allProps) && allProps == AddNew(old(allProps), properties)
    {
      for k := 0 to |properties|
        invariant fieldsSeen == Names(allProps)
        invariant AddNew(allProps, properties[k..]) == AddNew(old(allProps), properties)
      {
        var prop := properties[k];
        assert properties[k..][1..] == properties[k + 1..];
        if prop.name !in fieldsSeen {
          NamesAppend(allProps, prop);
          allProps := allProps + [prop];
          fieldsSeen := fieldsSeen + {prop.name};
        }
      }
    }
  }

  lemma {:induction false} NoMoreLeft(all: set<Ident>, before: set<Ident>, now: set<Ident>)
    requires before <= now
    ensures |all - now| <= |all - before|
  {
    assert all - before == (all - now) + ((all - before) - (all - now));
  }

  lemma {:induction false} FewerLeft(all: set<Ident>, before: set<Ident>, now: set<Ident>, n: Ident)
    requires now == before + {n} && n in all && n !in before
    ensures |all - now| < |all - before|
  {
    assert all - before == (all - now) + {n};
  }

  /** Visiting `order` on top of `before` leads from the first visited set and properties to the second. */
  ghost predicate Adds(g: Table, order: seq<Ident>, before: set<Ident>, props: seq<Prop>, after: set<Ident>,
      props': seq<Prop>) {
    && after == before + Elements(order)
    && (forall n :: n in order ==> n in g)
    && props' == AddFrom(g, props, order)
  }

  lemma {:induction false} AddsGrows(g: Table, order: seq<Ident>, before: set<Ident>, props: seq<Prop>,
      after: set<Ident>, props': seq<Prop>)
    requires Adds(g, order, before, props, after, props')
    ensures before <= after && after == before + Elements(order) && |g.Keys - after| <= |g.Keys - before|
  {
    NoMoreLeft(g.Keys, before, after);
  }

  lemma {:induction false} AddsJoin(g: Table, x: seq<Ident>, y: seq<Ident>, v0: set<Ident>, p0: seq<Prop>,
      v1: set<Ident>, p1: seq<Prop>,
                 v2: set<Ident>, p2: seq<Prop>)
    requires Adds(g, x, v0, p0, v1, p1) && Adds(g, y, v1, p1, v2, p2)
    ensures Adds(g, x + y, v0, p0, v2, p2)
  {
    AddFromJoins(g, p0, x, y);
    ElementsJoin(x, y);
  }

  lemma {:induction false} NodeAdds(g: Table, n: Ident, inner: seq<Ident>, before: set<Ident>, props: seq<Prop>,
                                    after: set<Ident>, mid: seq<Prop>)
    requires n in g && n !in before && inner == VisitAll(g, StripAll(g[n].bases), before + {n})
    requires Adds(g, inner, before + {n}, props, after, mid)
    ensures Adds(g, Visit(g, n, before), before, props, after, AddNew(mid, g[n].properties))
  {
    hide VisitAll, StripAll, AddNew;
    assert Visit(g, n, before) == inner + [n];
    AppendNode(g, props, inner, n);
    ElementsJoin(inner, [n]);
    assert Elements([n]) == {n};
  }

  lemma {:induction false} KeyedAt(g: Table, n: Ident)
    requires Keyed(g)
    ensures n in g ==> g[n].name == n
  {
  }

  lemma {:induction false} NoBases(g: Table, visited: set<Ident>, props: seq<Prop>)
    ensures VisitAll(g, StripAll([]), visited) == [] && Adds(g, [], visited, props, visited, props)
  {
  }

  lemma {:induction false} FirstBase(g: Table, bases: seq<string>, visited: set<Ident>, props: seq<Prop>)
    requires bases != []
    ensures var n := Ident(StripNamespace(bases[0]));
            var first := Visit(g, n, visited);
            && VisitAll(g, StripAll(bases), visited) ==
               first + VisitAll(g, StripAll(bases[1..]), visited + Elements(first))
            && (n !in g || n in visited ==> Adds(g, first, visited, props, visited, props))
  {
    var n := Ident(StripNamespace(bases[0]));
    StripFirst(bases);
    hide Visit, VisitAll, StripAll, Adds;
    VisitFirst(g, StripAll(bases), visited);
    if n !in g || n in visited { VisitNothing(g, n, visited, props); }
  }

  lemma {:induction false} StripFirst(bases: seq<string>)
    requires bases != []
    ensures StripAll(bases) == [Ident(StripNamespace(bases[0]))] + StripAll(bases[1..])
    ensures StripAll(bases)[1..] == StripAll(bases[1..])
  {
  }

  lemma {:induction false} VisitFirst(g: Table, ns: seq<Ident>, visited: set<Ident>)
    requires ns != []
    ensures VisitAll(g, ns, visited)
         == Visit(g, ns[0], visited) + VisitAll(g, ns[1..], visited + Elements(Visit(g, ns[0], visited)))
  {
  }

  lemma {:induction false} VisitNothing(g: Table, n: Ident, visited: set<Ident>, props: seq<Prop>)
    requires n !in g || n in visited
    ensures Visit(g, n, visited) == [] && Adds(g, [], visited, props, visited, props)
  {
    hide VisitAll;
  }

  lemma {:induction false} ElementsJoin(x: seq<Ident>, y: seq<Ident>)
    ensures Elements(x + y) == Elements(x) + Elements(y)
  {
  }

  lemma {:induction false} VisitKnown(g: Table, n: Ident, visited: set<Ident>)
    ensures forall m :: m in Visit(g, n, visited) ==> m in g
  {
    VisitGood(g, n, visited);
    var order := Visit(g, n, visited);
    forall m | m in order ensures m in g { assert m in Elements(order); }
  }

  lemma {:induction false} AddFromJoins(g: Table, acc: seq<Prop>, x: seq<Ident>, y: seq<Ident>)
    requires forall n :: n in x || n in y ==> n in g
    ensures AddFrom(g, acc, x + y) == AddFrom(g, AddFrom(g, acc, x), y)
    decreases |x|
  {
    if x == [] {
      assert x + y == y;
    } else {
      assert (x + y)[1..] == x[1..] + y;
      AddFromJoins(g, AddNew(acc, g[x[0]].properties), x[1..], y);
    }
  }

  lemma {:induction false} AppendNode(g: Table, acc: seq<Prop>, inner: seq<Ident>, n: Ident)
    requires n in g && forall m :: m in inner ==> m in g
    ensures AddFrom(g, acc, inner + [n]) == AddNew(AddFrom(g, acc, inner), g[n].properties)
  {
    AddFromJoins(g, acc, inner, [n]);
    assert [n][1..] == [];
  }

  /** All properties of an interface: its own and the inherited ones. */
  method CollectAllProperties(table: Table, iface: Iface) returns (props: seq<Prop>)
    requires Keyed(table)
    ensures
      var g := table[iface.name := iface];
      && UniqueNames(props)
      && (forall x :: x in Names(props) <==>
            exists n :: n in g && Reaches(g, iface.name, n) && x in Names(g[n].properties))
      && (forall p :: p in props ==> exists n :: n in g && Reaches(g, iface.name, n) && p in g[n].properties)
  {
    ghost var g := table[iface.name := iface];
    CollectsReachableProperties(g, iface.name);
    hide Visit, Reaches, AddFrom, Names, UniqueNames;
    props := Collect(table, iface);
  }

  /** The walk from the top, in the order it takes. */
  method Collect(table: Table, iface: Iface) returns (props: seq<Prop>)
    requires Keyed(table)
    ensures var g := table[iface.name := iface];
            && (forall n :: n in Visit(g, iface.name, {}) ==> n in g)
            && props == AddFrom(g, [], Visit(g, iface.name, {}))
  {
    ghost var g := table[iface.name := iface];
    var c := new Collector(table, iface);
    VisitKnown(g, iface.name, {});
    c.CollectFromBase(iface);
    props := c.allProps;
  }

  // ----------------------------------------------------------- which declaration is kept

  /** All declarations in visiting order. */
  function Declared(g: Table, order: seq<Ident>): seq<Prop>
    requires forall n :: n in order ==> n in g
  {
    if order == [] then [] else g[order[0]].properties + Declared(g, order[1..])
  }

  lemma {:induction false} AddNewTwice(acc: seq<Prop>, a: seq<Prop>, b: seq<Prop>)
    ensures AddNew(AddNew(acc, a), b) == AddNew(acc, a + b)
    decreases |a|
  {
    if a == [] {
      assert a + b == b;
    } else {
      assert (a + b)[1..] == a[1..] + b;
      AddNewTwice(if a[0].name in Names(acc) then acc else acc + [a[0]], a[1..], b);
    }
  }

  lemma {:induction false} AddFromIsAddNew(g: Table, acc: seq<Prop>, order: seq<Ident>)
    requires forall n :: n in order ==> n in g
    ensures AddFrom(g, acc, order) == AddNew(acc, Declared(g, order))
    decreases |order|
  {
    hide AddNew;
    if order == [] {
      AddNothing(acc);
    } else {
      AddFromIsAddNew(g, AddNew(acc, g[order[0]].properties), order[1..]);
      AddNewTwice(acc, g[order[0]].properties, Declared(g, order[1..]));
    }
  }

  lemma {:induction false} AddNothing(acc: seq<Prop>)
    ensures AddNew(acc, []) == acc
  {
  }

  /** The first declaration of its name. */
  ghost predicate FirstOfName(ps: seq<Prop>, i: nat) {
    i < |ps| && forall j :: 0 <= j < i ==> ps[j].name != ps[i].name
  }

  /** Of several declarations of a name the first is kept. */
  lemma {:induction false} FirstIsKept(acc: seq<Prop>, ps: seq<Prop>, i: nat)
    requires FirstOfName(ps, i)
    ensures ps[i].name !in Names(acc) ==> ps[i] in AddNew(acc, ps)
    ensures forall p :: p in acc ==> p in AddNew(acc, ps)
    decreases |ps|
  {
    var next := if ps[0].name in Names(acc) then acc else acc + [ps[0]];
    var more := ps[1..];
    NamesAppend(acc, ps[0]);
    if i > 0 {
      assert more[i - 1] == ps[i] && forall j :: 0 <= j < i - 1 ==> more[j] == ps[j + 1];
      FirstIsKept(next, more, i - 1);
    } else {
      AddNewKeeps(next, more);
    }
  }

  lemma {:induction false} AddNewKeeps(acc: seq<Prop>, ps: seq<Prop>)
    ensures forall p :: p in acc ==> p in AddNew(acc, ps)
    decreases |ps|
  {
    if ps != [] { AddNewKeeps(if ps[0].name in Names(acc) then acc else acc + [ps[0]], ps[1..]); }
  }

  /**
   * Of all declarations of a property among the interfaces visited, the first in visiting order is
   * collected. The interface itself is visited last, so what it inherits wins over what it declares.
   */
  lemma {:induction false} InheritedWins(g: Table, start: Ident, i: nat)
    requires start in g && (forall n :: n in Visit(g, start, {}) ==> n in g)
    ensures Visit(g, start, {}) != [] && Visit(g, start, {})[|Visit(g, start, {})| - 1] == start
    ensures var all := Declared(g, Visit(g, start, {}));
            FirstOfName(all, i) ==> all[i] in AddFrom(g, [], Visit(g, start, {}))
  {
    hide VisitAll, AddNew, AddFrom, Declared;
    var order := Visit(g, start, {});
    AddFromIsAddNew(g, [], order);
    if FirstOfName(Declared(g, order), i) { FirstIsKept([], Declared(g, order), i); }
  }
}
