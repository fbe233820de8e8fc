/**
 * The member-name matcher of the directory listing: an iterative scan that
 * remembers only the last `*` of the pattern.
 */
module Wildcard {
  import opened Native

  // ---------------------------------------------------------------- meaning

  /** `?` stands for one character and `*` for any run of characters. */
  ghost predicate Glob(p: Bytes, s: Bytes)
    decreases |p| + |s|
  {
    if p == [] then s == []
    else if p[0] == STAR then Glob(p[1..], s) || (s != [] && Glob(p, s[1..]))
    else s != [] && Accepts(p[0], s[0]) && Glob(p[1..], s[1..])
  }

  predicate Accepts(pc: Byte, sc: Byte) {
    pc == QUESTION || pc == sc
  }

  // ------------------------------------------------------------ computation

  /** Where the last star was met: its place in the pattern, and the place in the subject it reaches to. */
  datatype Star = Unset | At(pattern: nat, subject: nat)

  /** A cursor the loop can hold: both pointers inside their strings, the star behind them. */
  ghost predicate Valid(p: Bytes, s: Bytes, j: nat, i: nat, star: Star) {
    && i <= |s| && j <= |p|
    && (star.At? ==> star.pattern < j && p[star.pattern] == STAR && star.subject <= i)
  }

  /** What the C string holds at a position: the terminator once past the end. */
  function CharAt(t: Bytes, k: nat): Byte
    requires k <= |t|
  {
    if k < |t| then t[k] else NUL
  }

  /** The remaining trip of the scan from a cursor, with the tests in the order the loop makes them. */
  ghost predicate Scan(p: Bytes, s: Bytes, j: nat, i: nat, star: Star)
    requires Valid(p, s, j, i, star)
    decreases if star.At? then |p| - star.pattern else |p| + 1,
              if star.At? then |s| - star.subject else 0,
              |p| - j
  {
    if i == |s| then
      OnlyStars(p[j..])
    else if j < |p| && Accepts(p[j], s[i]) then
      Scan(p, s, j + 1, i + 1, star)
    else if j < |p| && p[j] == STAR then
      Scan(p, s, j + 1, i, At(j, i))
    else if star.At? then
      Scan(p, s, star.pattern + 1, star.subject + 1, At(star.pattern, star.subject + 1))
    else
      false
  }

  ghost predicate OnlyStars(p: Bytes) {
    forall k :: 0 <= k < |p| ==> p[k] == STAR
  }

  /** The matcher itself. The arguments are C strings, so neither holds a terminator. */
  method IsMatch(s: Bytes, p: Bytes) returns (matched: bool)
    requires NUL !in s && NUL !in p
    ensures matched == Scan(p, s, 0, 0, Unset)
    ensures STAR !in s ==> matched == Glob(p, s)
  {
    if STAR !in s { ScanIsGlob(p, s); }
    var i: nat, j: nat := 0, 0;
    var star := Unset;
    while CharAt(s, i) != NUL
      invariant Valid(p, s, j, i, star)
      invariant Scan(p, s, j, i, star) == Scan(p, s, 0, 0, Unset)
      decreases if star.At? then |p| - star.pattern else |p| + 1,
                if star.At? then |s| - star.subject else 0,
                |p| - j
    {
      if CharAt(p, j) == QUESTION || CharAt(p, j) == CharAt(s, i) {
        i, j := i + 1, j + 1;
      } else if CharAt(p, j) == STAR {
        star := At(j, i);
        j := j + 1;
      } else if star.At? {
        j := star.pattern + 1;
        star := At(star.pattern, star.subject + 1);
        i := star.subject;
      } else {
        return false;
      }
    }
    ghost var end := j;
    while CharAt(p, j) == STAR
      invariant end <= j <= |p|
      invariant OnlyStars(p[end..j])
      decreases |p| - j
    {
      assert p[end..j + 1] == p[end..j] + [p[j]];
      j := j + 1;
    }
    assert j < |p| ==> p[end..][j - end] != STAR;
    assert j == |p| ==> p[end..j] == p[end..];
    return CharAt(p, j) == NUL;
  }

  // ------------------------------------------------ why one star is enough

  /** The stretch of pattern since the star has been matched character by character. */
  ghost predicate Aligned(p: Bytes, s: Bytes, j: nat, i: nat, star: Star)
    requires Valid(p, s, j, i, star)
  {
    star.At? ==>
      && i - star.subject == j - star.pattern - 1
      && Literal(p[star.pattern + 1..j], s[star.subject..i])
  }

  /** `seg` has no star and accepts `t` position by position. */
  ghost predicate Literal(seg: Bytes, t: Bytes) {
    |seg| == |t| && forall k :: 0 <= k < |seg| ==> seg[k] != STAR && Accepts(seg[k], t[k])
  }

  ghost predicate StarFree(seg: Bytes) {
    forall k :: 0 <= k < |seg| ==> seg[k] != STAR
  }

  /** A star-free pattern stretch takes exactly its own length off the subject. */
  lemma {:induction false} StarFreePrefix(seg: Bytes, p: Bytes, s: Bytes)
    requires StarFree(seg)
    ensures Glob(seg + p, s) <==> |seg| <= |s| && Literal(seg, s[..|seg|]) && Glob(p, s[|seg|..])
  {
    if seg == [] {
      assert seg + p == p && s[0..] == s;
    } else if s != [] {
      assert (seg + p)[1..] == seg[1..] + p;
      StarFreePrefix(seg[1..], p, s[1..]);
      if |seg| <= |s| {
        assert s[1..][|seg| - 1..] == s[|seg|..];
        assert s[..|seg|] == [s[0]] + s[1..][..|seg| - 1];
        assert seg == [seg[0]] + seg[1..];
        if Literal(seg[1..], s[1..][..|seg| - 1]) && Accepts(seg[0], s[0]) {
          forall k | 0 <= k < |seg| ensures seg[k] != STAR && Accepts(seg[k], s[..|seg|][k]) {
            if k > 0 { assert seg[k] == seg[1..][k - 1]; }
          }
        }
        if Literal(seg, s[..|seg|]) {
          assert Accepts(seg[0], s[..|seg|][0]);
          forall k | 0 <= k < |seg| - 1
            ensures seg[1..][k] != STAR && Accepts(seg[1..][k], s[1..][..|seg| - 1][k])
          {
            assert Accepts(seg[k + 1], s[..|seg|][k + 1]);
          }
        }
      }
    }
  }

  /** A leading star matches a subject exactly when the rest matches one of its suffixes. */
  lemma {:induction false} StarTakesAnyRun(p: Bytes, s: Bytes)
    requires p != [] && p[0] == STAR
    ensures Glob(p, s) <==> exists k :: 0 <= k <= |s| && Glob(p[1..], s[k..])
    decreases |s|
  {
    assert s[0..] == s;
    if s != [] {
      StarTakesAnyRun(p, s[1..]);
      if Glob(p, s[1..]) {
        var k :| 0 <= k <= |s[1..]| && Glob(p[1..], s[1..][k..]);
        assert s[1..][k..] == s[k + 1..];
      }
      forall k | 0 < k <= |s| && Glob(p[1..], s[k..]) ensures Glob(p, s[1..]) {
        assert s[1..][k - 1..] == s[k..];
      }
    }
  }

  /** Nothing is left of the subject: only stars can still match. */
  lemma {:induction false} GlobOnEmpty(p: Bytes)
    ensures Glob(p, []) <==> OnlyStars(p)
  {
    if p != [] {
      GlobOnEmpty(p[1..]);
      if OnlyStars(p[1..]) && p[0] == STAR {
        forall k | 0 <= k < |p| ensures p[k] == STAR { if k > 0 { assert p[k] == p[1..][k - 1]; } }
      }
    }
  }

  /**
   * Meeting a second star, the scan may forget the first: whatever the first star could
   * still absorb, the second can absorb instead.
   */
  lemma {:induction false} ForgetEarlierStar(p: Bytes, s: Bytes, seg: nat, m: nat)
    requires 0 < seg <= |p| && p[0] == STAR && StarFree(p[1..seg])
    requires seg < |p| && p[seg] == STAR
    requires m == seg - 1 && m <= |s| && Literal(p[1..seg], s[..m])
    ensures Glob(p, s) <==> Glob(p[seg..], s[m..])
  {
    var mid, rest := p[1..seg], p[seg..];
    assert p[1..] == mid + rest;
    StarFreePrefix(mid, rest, s);
    StarTakesAnyRun(p, s);
    StarTakesAnyRun(rest, s[m..]);
    assert s[0..] == s;
    if Glob(p, s) {
      var k :| 0 <= k <= |s| && Glob(p[1..], s[k..]);
      StarFreePrefix(mid, rest, s[k..]);
      assert s[k..][m..] == s[k + m..];
      StarTakesAnyRun(rest, s[k + m..]);
      var k' :| 0 <= k' <= |s[k + m..]| && Glob(rest[1..], s[k + m..][k'..]);
      assert s[k + m..][k'..] == s[m..][k + k'..];
    }
  }

  /** With the subject used up, giving the star more of it cannot help. */
  lemma {:induction false} NoRoomToBacktrack(p: Bytes, s: Bytes)
    requires p != [] && p[0] == STAR
    requires |s| < |p| && Literal(p[1..|s| + 1], s)
    ensures Glob(p, s) <==> OnlyStars(p[|s| + 1..])
  {
    var mid, rest := p[1..|s| + 1], p[|s| + 1..];
    assert p[1..] == mid + rest;
    StarTakesAnyRun(p, s);
    if Glob(p, s) {
      var k :| 0 <= k <= |s| && Glob(p[1..], s[k..]);
      SuffixTooShort(mid, rest, s, k);
    } else {
      SuffixTooShort(mid, rest, s, 0);
    }
  }

  lemma {:induction false} SuffixTooShort(mid: Bytes, rest: Bytes, s: Bytes, k: nat)
    requires k <= |s| && Literal(mid, s)
    ensures Glob(mid + rest, s[k..]) <==> k == 0 && OnlyStars(rest)
  {
    StarFreePrefix(mid, rest, s[k..]);
    if k == 0 {
      assert s[0..] == s && s[..|mid|] == s && s[|mid|..] == [];
      GlobOnEmpty(rest);
    }
  }

  /** The meaning left to establish at a cursor: from the last star on, or from here if there is none. */
  ghost predicate Remaining(p: Bytes, s: Bytes, j: nat, i: nat, star: Star)
    requires Valid(p, s, j, i, star)
  {
    if star.At? then Glob(p[star.pattern..], s[star.subject..]) else Glob(p[j..], s[i..])
  }

  lemma {:induction false} ScanIsRemaining(p: Bytes, s: Bytes, j: nat, i: nat, star: Star)
    requires STAR !in s
    requires Valid(p, s, j, i, star) && Aligned(p, s, j, i, star)
    ensures Scan(p, s, j, i, star) == Remaining(p, s, j, i, star)
    decreases if star.At? then |p| - star.pattern else |p| + 1,
              if star.At? then |s| - star.subject else 0,
              |p| - j
  {
    if i == |s| {
      AtSubjectEnd(p, s, j, star);
    } else if j < |p| && Accepts(p[j], s[i]) {
      StepLiteral(p, s, j, i, star);
      ScanIsRemaining(p, s, j + 1, i + 1, star);
    } else if j < |p| && p[j] == STAR {
      StepStar(p, s, j, i, star);
      ScanIsRemaining(p, s, j + 1, i, At(j, i));
    } else if star.At? {
      StepBack(p, s, j, i, star);
      ScanIsRemaining(p, s, star.pattern + 1, star.subject + 1, At(star.pattern, star.subject + 1));
    }
  }

  lemma {:induction false} AtSubjectEnd(p: Bytes, s: Bytes, j: nat, star: Star)
    requires Valid(p, s, j, |s|, star) && Aligned(p, s, j, |s|, star)
    ensures Remaining(p, s, j, |s|, star) == OnlyStars(p[j..])
  {
    if star.At? {
      var q, t := p[star.pattern..], s[star.subject..];
      assert q[1..|t| + 1] == p[star.pattern + 1..j];
      assert q[|t| + 1..] == p[j..];
      assert s[star.subject..|s|] == t;
      NoRoomToBacktrack(q, t);
    } else {
      assert s[|s|..] == [];
      GlobOnEmpty(p[j..]);
    }
  }

  lemma {:induction false} StepLiteral(p: Bytes, s: Bytes, j: nat, i: nat, star: Star)
    requires STAR !in s
    requires Valid(p, s, j, i, star) && Aligned(p, s, j, i, star)
    requires i < |s| && j < |p| && Accepts(p[j], s[i])
    ensures Valid(p, s, j + 1, i + 1, star) && Aligned(p, s, j + 1, i + 1, star)
    ensures Remaining(p, s, j, i, star) == Remaining(p, s, j + 1, i + 1, star)
  {
    assert p[j] != STAR by { assert s[i] in s; }
    if star.At? {
      assert p[star.pattern + 1..j + 1] == p[star.pattern + 1..j] + [p[j]];
      assert s[star.subject..i + 1] == s[star.subject..i] + [s[i]];
    } else {
      assert p[j..][1..] == p[j + 1..] && s[i..][1..] == s[i + 1..];
    }
  }

  lemma {:induction false} StepStar(p: Bytes, s: Bytes, j: nat, i: nat, star: Star)
    requires Valid(p, s, j, i, star) && Aligned(p, s, j, i, star)
    requires j < |p| && p[j] == STAR
    ensures Remaining(p, s, j, i, star) == Remaining(p, s, j + 1, i, At(j, i))
    ensures Aligned(p, s, j + 1, i, At(j, i))
  {
    if star.At? {
      var q, t := p[star.pattern..], s[star.subject..];
      var seg := j - star.pattern;
      assert q[1..seg] == p[star.pattern + 1..j];
      assert q[seg..] == p[j..];
      assert t[..seg - 1] == s[star.subject..i];
      assert t[seg - 1..] == s[i..];
      ForgetEarlierStar(q, t, seg, seg - 1);
    }
  }

  lemma {:induction false} StepBack(p: Bytes, s: Bytes, j: nat, i: nat, star: Star)
    requires Valid(p, s, j, i, star) && Aligned(p, s, j, i, star) && star.At?
    requires i < |s|
    requires !(j < |p| && (Accepts(p[j], s[i]) || p[j] == STAR))
    ensures Remaining(p, s, j, i, star)
         == Remaining(p, s, star.pattern + 1, star.subject + 1, At(star.pattern, star.subject + 1))
    ensures Aligned(p, s, star.pattern + 1, star.subject + 1, At(star.pattern, star.subject + 1))
  {
    var q, t := p[star.pattern..], s[star.subject..];
    var mid, rest := p[star.pattern + 1..j], p[j..];
    assert q[1..] == mid + rest;
    StarFreePrefix(mid, rest, t);
    assert t[|mid|..] == s[i..];
    assert t[1..] == s[star.subject + 1..];
  }

  // ----------------------------------------------------------- main results

  lemma {:induction false} ScanIsGlob(p: Bytes, s: Bytes)
    requires STAR !in s
    ensures Scan(p, s, 0, 0, Unset) == Glob(p, s)
  {
    ScanIsRemaining(p, s, 0, 0, Unset);
    assert p[0..] == p && s[0..] == s;
  }

  /** The scan agrees with the wildcard meaning on every pattern exactly when the subject has no star. */
  lemma {:induction false} ExactOnStarFreeSubjects(s: Bytes)
    ensures STAR !in s <==> forall p :: Scan(p, s, 0, 0, Unset) == Glob(p, s)
  {
    if STAR !in s {
      forall p ensures Scan(p, s, 0, 0, Unset) == Glob(p, s) { ScanIsGlob(p, s); }
    } else {
      var k := FirstStar(s);
      var tail := if k + 1 == |s| then [STAR, QUESTION] else [STAR];
      MissesStarInSubject(s, k, tail);
      assert Scan(s[..k] + tail, s, 0, 0, Unset) != Glob(s[..k] + tail, s);
    }
  }

  ghost function FirstStar(s: Bytes): (k: nat)
    requires STAR in s
    ensures k < |s| && s[k] == STAR && STAR !in s[..k]
  {
    if s[0] == STAR then 0 else
      assert s == [s[0]] + s[1..];
      var k := FirstStar(s[1..]);
      assert s[..k + 1] == [s[0]] + s[1..][..k];
      k + 1
  }

  /** The subject's own star swallows the pattern's star as if it were a literal. */
  lemma {:induction false} MissesStarInSubject(s: Bytes, k: nat, tail: Bytes)
    requires k < |s| && s[k] == STAR && STAR !in s[..k]
    requires tail == if k + 1 == |s| then [STAR, QUESTION] else [STAR]
    ensures Glob(s[..k] + tail, s) && !Scan(s[..k] + tail, s, 0, 0, Unset)
  {
    var p := s[..k] + tail;
    assert StarFree(s[..k]) by { forall n | 0 <= n < k ensures s[..k][n] != STAR { assert s[..k][n] in s[..k]; } }
    StarFreePrefix(s[..k], tail, s);
    StarTakesAnyRun(tail, s[k..]);
    if k + 1 == |s| {
      assert s[k..][0..] == [STAR];
      assert Glob([QUESTION], [STAR]);
      assert tail[1..] == [QUESTION];
    } else {
      assert s[k..][|s| - k..] == [] && tail[1..] == [];
    }
    CopyLiteral(p, s, 0, k);
    assert p[k] == STAR;
    assert !Scan(p, s, k + 1, k + 1, Unset);
  }

  /** Where pattern and subject agree letter for letter the scan just moves along. */
  lemma {:induction false} CopyLiteral(p: Bytes, s: Bytes, n: nat, k: nat)
    requires n <= k <= |s| && k <= |p| && p[..k] == s[..k]
    ensures Scan(p, s, n, n, Unset) == Scan(p, s, k, k, Unset)
    decreases k - n
  {
    if n < k {
      assert p[..k][n] == s[..k][n];
      CopyLiteral(p, s, n + 1, k);
    }
  }
}
