/** The edit distance behind the "did you mean" suggestions of the command parser. */
module Levenshtein {

  // ---------------------------------------------------------------- meaning

  function Min(x: nat, y: nat): (m: nat)
    ensures m <= x && m <= y && (m == x || m == y)
  {
    if x < y then x else y
  }

  function Cost(x: char, y: char): nat {
    if x == y then 0 else 1
  }

  /** The edit distance by recursion on last characters. */
  function Distance(a: string, b: string): (d: nat)
    decreases |a| + |b|
  {
    if a == [] then |b|
    else if b == [] then |a|
    else
      var a', b' := Init(a), Init(b);
      Min(Min(Distance(a', b) + 1, Distance(a, b') + 1), Distance(a', b') + Cost(Last(a), Last(b)))
  }

  function Init(a: string): string
    requires a != []
  {
    a[..|a| - 1]
  }

  function Last(a: string): char
    requires a != []
  {
    a[|a| - 1]
  }

  /** One string becomes another by inserting, deleting or replacing a single character. */
  ghost predicate OneEdit(a: string, b: string) {
    || Inserts(a, b)
    || Inserts(b, a)
    || exists u, x, y, v :: ReplacesAt(a, b, u, x, y, v)
  }

  ghost predicate Inserts(a: string, b: string) {
    exists u, x, v :: InsertsAt(a, b, u, x, v)
  }

  ghost predicate InsertsAt(a: string, b: string, u: string, x: char, v: string) {
    a == u + v && b == u + [x] + v
  }

  ghost predicate ReplacesAt(a: string, b: string, u: string, x: char, y: char, v: string) {
    a == u + [x] + v && b == u + [y] + v
  }

  /** A chain of strings from `a` to `b`, each a single edit away from the one before. */
  ghost predicate Edits(chain: seq<string>, a: string, b: string) {
    && chain != [] && chain[0] == a && chain[|chain| - 1] == b
    && forall k :: 0 <= k < |chain| - 1 ==> OneEdit(chain[k], chain[k + 1])
  }

  // ------------------------------------------------------------ computation

  /** The first `n` cells of a row hold the distances from `a` to the prefixes of `b`. */
  ghost predicate Row(row: seq<nat>, a: string, b: string, n: nat) {
    n <= |row| && n <= |b| + 1 && forall k :: 0 <= k < n ==> row[k] == Distance(a, b[..k])
  }

  /** The two-row table: `prev` is the finished row for `a[..i - 1]`, `curr` the row being filled. */
  method LevenshteinDistance(a: string, b: string) returns (d: nat)
    ensures d == Distance(a, b)
  {
    var prev := new nat[|b| + 1];
    var curr := new nat[|b| + 1];
    for j := 0 to |b| + 1
      invariant Row(prev[..], [], b, j)
    {
      prev[j] := j;
    }
    assert a[..0] == [];
    for i := 1 to |a| + 1
      invariant Row(prev[..], a[..i - 1], b, |b| + 1)
    {
      FillRow(a, b, i, prev, curr);
      CopyRow(prev, curr);
    }
    assert a[..|a|] == a && b[..|b|] == b;
    d := prev[|b|];
  }

  /** The inner loop: one row of the table from the row above it. */
  method FillRow(a: string, b: string, i: nat, prev: array<nat>, curr: array<nat>)
    requires 0 < i <= |a| && prev != curr && prev.Length == curr.Length == |b| + 1
    requires Row(prev[..], a[..i - 1], b, |b| + 1)
    modifies curr
    ensures Row(curr[..], a[..i], b, |b| + 1)
  {
    curr[0] := i;
    for j := 1 to |b| + 1
      invariant Row(curr[..], a[..i], b, j)
    {
      var cost := if a[i - 1] == b[j - 1] then 0 else 1;
      var del := prev[j] + 1;
      var ins := curr[j - 1] + 1;
      var sub := prev[j - 1] + cost;
      var minVal := if del < ins then del else ins;
      minVal := if minVal < sub then minVal else sub;
      RowStep(prev[..], curr[..], a, b, i, j, minVal);
      ghost var before := curr[..];
      curr[j] := minVal;
      assert curr[..] == before[j := minVal];
    }
  }

  /** One more cell: the recursion read as a rule on neighbouring cells. */
  lemma {:induction false} RowStep(above: seq<nat>, row: seq<nat>, a: string, b: string, i: nat, j: nat, v: nat)
    requires 0 < i <= |a| && 0 < j <= |b| && |row| == |b| + 1
    requires Row(above, a[..i - 1], b, |b| + 1) && Row(row, a[..i], b, j)
    requires v == Min(Min(above[j] + 1, row[j - 1] + 1), above[j - 1] + Cost(a[i - 1], b[j - 1]))
    ensures Row(row[j := v], a[..i], b, j + 1)
  {
    hide Distance;
    Unfold(a, b, i, j);
    RowExtends(row, a[..i], b, j, v);
  }

  lemma {:induction false} RowExtends(row: seq<nat>, a: string, b: string, j: nat, v: nat)
    requires j <= |b| < |row| && Row(row, a, b, j) && v == Distance(a, b[..j])
    ensures Row(row[j := v], a, b, j + 1)
  {
    forall k | 0 <= k < j + 1 ensures row[j := v][k] == Distance(a, b[..k]) {
      if k < j { assert row[k] == Distance(a, b[..k]); }
    }
  }

  method CopyRow(into: array<nat>, from: array<nat>)
    requires into != from && into.Length == from.Length
    modifies into
    ensures into[..] == from[..]
  {
    for k := 0 to into.Length
      invariant forall n :: 0 <= n < k ==> into[n] == from[n]
    {
      into[k] := from[k];
    }
  }

  lemma {:induction false} Unfold(a: string, b: string, i: nat, j: nat)
    requires 0 < i <= |a| && 0 < j <= |b|
    ensures Distance(a[..i], b[..j])
         == Min(Min(Distance(a[..i - 1], b[..j]) + 1, Distance(a[..i], b[..j - 1]) + 1),
                Distance(a[..i - 1], b[..j - 1]) + Cost(a[i - 1], b[j - 1]))
  {
    hide Distance;
    UnfoldLast(a[..i], b[..j]);
    assert Init(a[..i]) == a[..i - 1] && Init(b[..j]) == b[..j - 1];
  }

  lemma {:induction false} UnfoldLast(a: string, b: string)
    requires a != [] && b != []
    ensures Distance(a, b)
         == Min(Min(Distance(Init(a), b) + 1, Distance(a, Init(b)) + 1),
                Distance(Init(a), Init(b)) + Cost(Last(a), Last(b)))
  {
  }

  // ------------------------------------------------------------ metric laws

  lemma {:induction false} Symmetric(a: string, b: string)
    ensures Distance(a, b) == Distance(b, a)
    decreases |a| + |b|
  {
    if a != [] && b != [] {
      Symmetric(Init(a), b);
      Symmetric(a, Init(b));
      Symmetric(Init(a), Init(b));
    }
  }

  lemma {:induction false} ZeroOnlyOnEqual(a: string, b: string)
    ensures Distance(a, b) == 0 <==> a == b
    decreases |a| + |b|
  {
    if a != [] && b != [] {
      ZeroOnlyOnEqual(Init(a), Init(b));
      assert a == Init(a) + [Last(a)] && b == Init(b) + [Last(b)];
    }
  }

  /** A longer first string costs at most one deletion more; a longer second, one insertion. */
  lemma {:induction false} Extends(a: string, b: string)
    ensures a != [] ==> Distance(a, b) <= Distance(Init(a), b) + 1
    ensures b != [] ==> Distance(a, b) <= Distance(a, Init(b)) + 1
    ensures a != [] && b != [] ==> Distance(a, b) <= Distance(Init(a), Init(b)) + Cost(Last(a), Last(b))
  {
  }

  /** Distances from and to the empty string are lengths, and lengths differ by at most the distance. */
  lemma {:induction false} LengthGap(a: string, b: string)
    ensures |a| <= |b| + Distance(a, b) && |b| <= |a| + Distance(a, b)
    decreases |a| + |b|
  {
    if a != [] && b != [] {
      LengthGap(Init(a), b);
      LengthGap(a, Init(b));
      LengthGap(Init(a), Init(b));
    }
  }

  lemma {:induction false} Triangle(a: string, b: string, c: string)
    ensures Distance(a, c) <= Distance(a, b) + Distance(b, c)
    decreases |a| + |b| + |c|
  {
    if a == [] || b == [] || c == [] {
      LengthGap(a, b);
      LengthGap(b, c);
      LengthGap(a, c);
      if b == [] && a != [] && c != [] { AtMostBothLengths(a, c); }
    } else if Distance(a, b) == Distance(Init(a), b) + 1 {
      Triangle(Init(a), b, c);
    } else if Distance(b, c) == Distance(b, Init(c)) + 1 {
      Triangle(a, b, Init(c));
    } else {
      TriangleThroughMiddle(a, b, c);
      Triangle(a, Init(b), c);
      Triangle(a, Init(b), Init(c));
      Triangle(Init(a), Init(b), c);
      Triangle(Init(a), Init(b), Init(c));
    }
  }

  /** The four remaining combinations, where both sides touch the last character of the middle string. */
  lemma {:induction false} TriangleThroughMiddle(a: string, b: string, c: string)
    requires a != [] && b != [] && c != []
    requires Distance(a, b) != Distance(Init(a), b) + 1
    requires Distance(b, c) != Distance(b, Init(c)) + 1
    ensures Distance(a, b) == Distance(a, Init(b)) + 1
         || Distance(a, b) == Distance(Init(a), Init(b)) + Cost(Last(a), Last(b))
    ensures Distance(b, c) == Distance(Init(b), c) + 1
         || Distance(b, c) == Distance(Init(b), Init(c)) + Cost(Last(b), Last(c))
    ensures Distance(a, c) <= Distance(Init(a), c) + 1
    ensures Distance(a, c) <= Distance(a, Init(c)) + 1
    ensures Distance(a, c) <= Distance(Init(a), Init(c)) + Cost(Last(a), Last(c))
  {
    Extends(a, c);
  }

  lemma {:induction false} AtMostBothLengths(a: string, b: string)
    ensures Distance(a, b) <= |a| + |b|
    decreases |a| + |b|
  {
    if a != [] && b != [] { AtMostBothLengths(Init(a), b); }
  }

  // --------------------------------------------------- shortest edit scripts

  /** Putting the same text behind both strings never raises the distance. */
  lemma {:induction false} SharedTail(a: string, b: string, v: string)
    ensures Distance(a + v, b + v) <= Distance(a, b)
    decreases |v|
  {
    if v == [] {
      assert a + v == a && b + v == b;
    } else {
      assert Init(a + v) == a + Init(v) && Init(b + v) == b + Init(v);
      SharedTail(a, b, Init(v));
      Extends(a + v, b + v);
    }
  }

  lemma {:induction false} OneEditCostsOne(a: string, b: string)
    requires OneEdit(a, b)
    ensures Distance(a, b) <= 1
  {
    if Inserts(a, b) {
      InsertionCostsOne(a, b);
    } else if Inserts(b, a) {
      InsertionCostsOne(b, a);
      Symmetric(a, b);
    } else {
      var u, x, y, v :| ReplacesAt(a, b, u, x, y, v);
      assert Init(u + [x]) == u && Init(u + [y]) == u;
      ZeroOnlyOnEqual(u, u);
      Extends(u + [x], u + [y]);
      SharedTail(u + [x], u + [y], v);
    }
  }

  lemma {:induction false} InsertionCostsOne(a: string, b: string)
    requires Inserts(a, b)
    ensures Distance(a, b) <= 1
  {
    var u, x, v :| InsertsAt(a, b, u, x, v);
    assert Init(u + [x]) == u;
    ZeroOnlyOnEqual(u, u);
    Extends(u, u + [x]);
    SharedTail(u, u + [x], v);
  }

  /** No chain of single edits is shorter than the distance. */
  lemma {:induction false} NoShorterChain(chain: seq<string>, a: string, b: string)
    requires Edits(chain, a, b)
    ensures Distance(a, b) <= |chain| - 1
    decreases |chain|
  {
    if |chain| == 1 {
      ZeroOnlyOnEqual(a, b);
    } else {
      assert OneEdit(chain[0], chain[1]);
      OneEditCostsOne(a, chain[1]);
      forall k | 0 <= k < |chain| - 2 ensures OneEdit(chain[1..][k], chain[1..][k + 1]) {
        assert OneEdit(chain[k + 1], chain[k + 2]);
      }
      NoShorterChain(chain[1..], chain[1], b);
      Triangle(a, chain[1], b);
    }
  }

  lemma {:induction false} EditsAtTheEnd(u: string, x: char, y: char)
    ensures OneEdit(u, u + [x]) && OneEdit(u + [x], u) && OneEdit(u + [x], u + [y])
  {
    assert InsertsAt(u, u + [x], u, x, []);
    assert ReplacesAt(u + [x], u + [y], u, x, y, []);
  }

  /** A chain of exactly the distance's length, built along the recursion. */
  lemma {:induction false} ShortestChain(a: string, b: string) returns (chain: seq<string>)
    ensures Edits(chain, a, b) && |chain| - 1 == Distance(a, b)
    decreases |a| + |b|
  {
    hide Edits, Distance;
    if a == [] && b == [] {
      chain := [a];
      NoEdits();
      return;
    }
    if a != [] && b != [] { UnfoldLast(a, b); }
    if a != [] { DistanceToEmpty(a); DistanceToEmpty(Init(a)); }
    if b != [] { DistanceToEmpty(b); DistanceToEmpty(Init(b)); }
    if b == [] || (a != [] && Distance(a, b) == Distance(Init(a), b) + 1) {
      var shorter := ShortestChain(Init(a), b);
      chain := ByDeletion(shorter, Init(a), b, Last(a));
      assert Init(a) + [Last(a)] == a;
    } else if a == [] || Distance(a, b) == Distance(a, Init(b)) + 1 {
      var shorter := ShortestChain(a, Init(b));
      chain := ByInsertion(shorter, a, Init(b), Last(b));
      assert Init(b) + [Last(b)] == b;
    } else {
      var shorter := ShortestChain(Init(a), Init(b));
      chain := BySubstitution(shorter, Init(a), Init(b), Last(a), Last(b));
      assert Init(a) + [Last(a)] == a && Init(b) + [Last(b)] == b;
    }
  }

  lemma {:induction false} NoEdits()
    ensures Edits([[]], [], []) && Distance([], []) == 0
  {
  }

  lemma {:induction false} DistanceToEmpty(a: string)
    ensures Distance(a, []) == |a| == Distance([], a)
  {
  }

  lemma {:induction false} ByDeletion(shorter: seq<string>, a: string, b: string, x: char) returns (chain: seq<string>)
    requires Edits(shorter, a, b)
    ensures Edits(chain, a + [x], b) && |chain| == |shorter| + 1
  {
    EditsAtTheEnd(a, x, x);
    chain := Prepend(a + [x], shorter, a, b);
  }

  lemma {:induction false} ByInsertion(shorter: seq<string>, a: string, b: string, x: char) returns (chain: seq<string>)
    requires Edits(shorter, a, b)
    ensures Edits(chain, a, b + [x]) && |chain| == |shorter| + 1
  {
    EditsAtTheEnd(b, x, x);
    chain := Append(shorter, a, b, b + [x]);
  }

  lemma {:induction false} BySubstitution(shorter: seq<string>, a: string, b: string, x: char, y: char)
    returns (chain: seq<string>)
    requires Edits(shorter, a, b)
    ensures Edits(chain, a + [x], b + [y]) && |chain| == |shorter| + Cost(x, y)
  {
    chain := Lift(shorter, a, b, x);
    if x != y {
      EditsAtTheEnd(b, x, y);
      chain := Append(chain, a + [x], b + [x], b + [y]);
    }
  }

  lemma {:induction false} Prepend(first: string, chain: seq<string>, a: string, b: string)
    returns (longer: seq<string>)
    requires Edits(chain, a, b) && OneEdit(first, a)
    ensures Edits(longer, first, b) && |longer| == |chain| + 1
  {
    longer := [first] + chain;
    forall k | 0 <= k < |longer| - 1 ensures OneEdit(longer[k], longer[k + 1]) {
      if k > 0 { assert OneEdit(chain[k - 1], chain[k]); }
    }
  }

  lemma {:induction false} Append(chain: seq<string>, a: string, b: string, last: string) returns (longer: seq<string>)
    requires Edits(chain, a, b) && OneEdit(b, last)
    ensures Edits(longer, a, last) && |longer| == |chain| + 1
  {
    longer := chain + [last];
  }

  /** A chain stays a chain when every string in it gets the same last character. */
  lemma {:induction false} Lift(chain: seq<string>, a: string, b: string, x: char) returns (lifted: seq<string>)
    requires Edits(chain, a, b)
    ensures Edits(lifted, a + [x], b + [x]) && |lifted| == |chain|
  {
    lifted := seq(|chain|, k requires 0 <= k < |chain| => chain[k] + [x]);
    forall k | 0 <= k < |lifted| - 1 ensures OneEdit(lifted[k], lifted[k + 1]) {
      assert OneEdit(chain[k], chain[k + 1]);
      LiftOneEdit(chain[k], chain[k + 1], x);
    }
  }

  lemma {:induction false} LiftOneEdit(a: string, b: string, z: char)
    requires OneEdit(a, b)
    ensures OneEdit(a + [z], b + [z])
  {
    if Inserts(a, b) {
      LiftInserts(a, b, z);
    } else if Inserts(b, a) {
      LiftInserts(b, a, z);
    } else {
      var u, x, y, v :| ReplacesAt(a, b, u, x, y, v);
      assert ReplacesAt(a + [z], b + [z], u, x, y, v + [z]);
    }
  }

  lemma {:induction false} LiftInserts(a: string, b: string, z: char)
    requires Inserts(a, b)
    ensures Inserts(a + [z], b + [z])
  {
    var u, x, v :| InsertsAt(a, b, u, x, v);
    assert InsertsAt(a + [z], b + [z], u, x, v + [z]);
  }

  /** The distance is the length of a shortest chain of single-character edits. */
  lemma {:induction false} DistanceIsShortest(a: string, b: string)
    ensures exists chain :: Edits(chain, a, b) && |chain| - 1 == Distance(a, b)
    ensures forall chain :: Edits(chain, a, b) ==> Distance(a, b) <= |chain| - 1
  {
    var chain := ShortestChain(a, b);
    forall c | Edits(c, a, b) ensures Distance(a, b) <= |c| - 1 { NoShorterChain(c, a, b); }
  }
}
