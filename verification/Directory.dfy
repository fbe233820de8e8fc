/** Listing the members of a partitioned data set from its directory blocks. */
module Directory {
  import opened Native
  import Wildcard

  const BLOCK_DATA := 254
  const ENTRY_SIZE := 12
  const STATS_SIZE := 30
  const DEFAULT_MAX_ENTRIES := 5000
  const RTNCD_SUCCESS := 0
  const RTNCD_WARNING := 1

  /** A directory block as read: a used-count halfword and 254 bytes. */
  datatype Block = Block(count: nat, rest: Bytes) {
    predicate Valid() {
      count < 0x10000 && |rest| == BLOCK_DATA
    }

    /** A count past the end of the block is corrupt and cut back. */
    function Used(): (n: nat)
      requires Valid()
      ensures n <= |rest|
    {
      if count > BLOCK_DATA then BLOCK_DATA else count
    }
  }

  /** A directory entry as laid out: name, pointer, information byte, and user data in halfwords. */
  datatype Entry = Entry(name: Bytes, ttr: Bytes, info: Byte, user: Bytes)

  /** The low five bits count the halfwords of user data. */
  function UserLength(info: Byte): (n: nat)
    ensures n <= 62
  {
    info % 32 * 2
  }

  // ---------------------------------------------------------------- layout

  ghost predicate WellFormed(e: Entry) {
    && |e.name| == 8 && |e.ttr| == 3 && |e.user| == UserLength(e.info)
    && !EndMark(e.name)
  }

  predicate EndMark(name: Bytes) {
    name == [0xFF, 0xFF, 0xFF, 0xFF, 0xFF, 0xFF, 0xFF, 0xFF]
  }

  function Lay(e: Entry): Bytes {
    e.name + e.ttr + [e.info] + e.user
  }

  function LayAll(es: seq<Entry>): Bytes {
    if es == [] then [] else Lay(es[0]) + LayAll(es[1..])
  }

  /** What may follow the entries: too little for another, or the end marker. */
  ghost predicate Tail(t: Bytes) {
    |t| < ENTRY_SIZE || EndMark(t[..8])
  }

  // ------------------------------------------------------------------ walk

  /** One entry found at a position: its raw name, its information byte, and its user data if all of it is used. */
  datatype Found = Found(name: Bytes, info: Byte, user: Option<Bytes>)

  function FoundAt(used: nat, data: Bytes, i: nat): Found
    requires i + ENTRY_SIZE <= used <= |data|
  {
    var info := data[i + 11];
    var end := i + ENTRY_SIZE + UserLength(info);
    Found(data[i..i + 8], info, if end <= used then Some(data[i + ENTRY_SIZE..end]) else None)
  }

  /** The entries from a position on, for arbitrary bytes. */
  function Walk(used: nat, data: Bytes, i: nat): seq<Found>
    requires used <= |data|
    decreases used - i
  {
    if i + ENTRY_SIZE > used || EndMark(data[i..i + 8]) then []
    else [FoundAt(used, data, i)] + Walk(used, data, i + ENTRY_SIZE + UserLength(data[i + 11]))
  }

  function FoundOf(e: Entry): Found {
    Found(e.name, e.info, Some(e.user))
  }

  function FoundAll(es: seq<Entry>): seq<Found> {
    if es == [] then [] else [FoundOf(es[0])] + FoundAll(es[1..])
  }

  /** A laid-out block is walked entry by entry, whatever lies in front. */
  lemma {:induction false} WalkFindsLayout(front: Bytes, es: seq<Entry>, tail: Bytes, used: nat, data: Bytes)
    requires forall k :: 0 <= k < |es| ==> WellFormed(es[k])
    requires used <= |data| && data[..used] == front + LayAll(es) + tail && Tail(tail)
    ensures Walk(used, data, |front|) == FoundAll(es)
    decreases |es|
  {
    hide FoundAt, WellFormed, Walk, FoundOf, Lay, UserLength, Tail, EndMark;
    if es == [] {
      assert front + [] + tail == front + tail;
      WalkEnds(front, tail, used, data);
    } else {
      var e := es[0];
      var laid, rest := Lay(e), LayAll(es[1..]);
      assert front + LayAll(es) + tail == (front + laid) + (rest + tail) == (front + laid) + rest + tail;
      OneEntry(front, e, rest + tail, used, data);
      WalkStep(used, data, |front|);
      assert forall k :: 0 <= k < |es[1..]| ==> es[1..][k] == es[k + 1];
      WalkFindsLayout(front + laid, es[1..], tail, used, data);
    }
  }

  lemma {:induction false} WalkEnds(front: Bytes, tail: Bytes, used: nat, data: Bytes)
    requires used <= |data| && data[..used] == front + tail && Tail(tail)
    ensures Walk(used, data, |front|) == []
  {
    var i := |front|;
    if |tail| >= ENTRY_SIZE {
      assert data[i..i + 8] == data[..used][i..i + 8] == tail[..8];
    }
  }

  lemma {:induction false} WalkStep(used: nat, data: Bytes, i: nat)
    requires i + ENTRY_SIZE <= used <= |data| && !EndMark(data[i..i + 8])
    ensures Walk(used, data, i) ==
            [FoundAt(used, data, i)] + Walk(used, data, i + ENTRY_SIZE + UserLength(data[i + 11]))
  {
  }

  lemma {:induction false} OneEntry(front: Bytes, e: Entry, after: Bytes, used: nat, data: Bytes)
    requires WellFormed(e) && used <= |data| && data[..used] == front + Lay(e) + after
    ensures var i := |front|;
            && i + ENTRY_SIZE <= used && !EndMark(data[i..i + 8]) && data[i + 11] == e.info
            && |Lay(e)| == ENTRY_SIZE + UserLength(e.info)
            && FoundAt(used, data, i) == FoundOf(e)
  {
    var i, laid := |front|, Lay(e);
    Middle(front, laid, after, used, data);
    var at := data[i..i + |laid|];
    hide EndMark, UserLength;
    assert data[i..i + 8] == at[..8] == e.name;
    assert data[i + 11] == at[11] == e.info;
    assert data[i + 12..i + |laid|] == at[12..] == e.user;
  }

  lemma {:induction false} Middle(front: Bytes, mid: Bytes, after: Bytes, used: nat, data: Bytes)
    requires used <= |data| && data[..used] == front + mid + after
    ensures |front| + |mid| <= used && data[|front|..|front| + |mid|] == mid
  {
    assert data[|front|..|front| + |mid|] == data[..used][|front|..|front| + |mid|];
  }

  // ----------------------------------------------------------------- names

  /** The C string a raw name becomes: blanks turned into terminators, read up to the first. */
  function CName(raw: Bytes): (name: Bytes)
    ensures NUL !in name && BLANK !in name && |name| <= |raw|
  {
    if raw == [] || raw[0] == NUL || raw[0] == BLANK then [] else [raw[0]] + CName(raw[1..])
  }

  function CString(s: Bytes): (c: Bytes)
    ensures NUL !in c
  {
    if s == [] || s[0] == NUL then [] else [s[0]] + CString(s[1..])
  }

  /** `toupper` in IBM-1047: the three stretches of small letters lie 0x40 below the capitals. */
  function Upper(c: Byte): Byte {
    if 0x81 <= c <= 0x89 || 0x91 <= c <= 0x99 || 0xA2 <= c <= 0xA9 then c + 0x40 else c
  }

  function UpperAll(s: Bytes): (u: Bytes)
    ensures |u| == |s|
  {
    seq(|s|, k requires 0 <= k < |s| => Upper(s[k]))
  }

  /** Whether a name is listed: no pattern, or the matcher says so. */
  ghost predicate Listed(pattern: Bytes, name: Bytes) {
    pattern == [] || Wildcard.Scan(CString(UpperAll(pattern)), name, 0, 0, Wildcard.Unset)
  }

  /** For the names a directory really holds the matcher is the wildcard meaning. */
  lemma {:induction false} ListedByMeaning(pattern: Bytes, name: Bytes)
    requires STAR !in name && pattern != []
    ensures Listed(pattern, name) <==> Wildcard.Glob(CString(UpperAll(pattern)), name)
  {
    Wildcard.ScanIsGlob(CString(UpperAll(pattern)), name);
  }

  // --------------------------------------------------------------- listing

  datatype Member = Member(name: Bytes, stats: Option<Bytes>)

  function MemberOf(f: Found, show: bool): Member {
    Member(CName(f.name), if show && UserLength(f.info) >= STATS_SIZE then f.user else None)
  }

  /** The members of entries that are listed, in order. */
  ghost function Select(fs: seq<Found>, pattern: Bytes, show: bool): seq<Member> {
    if fs == [] then [] else
      var last := MemberOf(fs[|fs| - 1], show);
      Select(fs[..|fs| - 1], pattern, show) + if Listed(pattern, last.name) then [last] else []
  }

  ghost function AllFound(blocks: seq<Block>): seq<Found>
    requires forall k :: 0 <= k < |blocks| ==> blocks[k].Valid()
  {
    if blocks == [] then [] else
      var last := blocks[|blocks| - 1];
      AllFound(blocks[..|blocks| - 1]) + Walk(last.Used(), last.rest, 0)
  }

  /** The first `max` of a sequence. */
  function FirstOf<T>(s: seq<T>, max: int): seq<T> {
    if max <= 0 then [] else if |s| <= max then s else s[..max]
  }

  lemma {:induction false} SelectAppends(a: seq<Found>, b: seq<Found>, pattern: Bytes, show: bool)
    ensures Select(a + b, pattern, show) == Select(a, pattern, show) + Select(b, pattern, show)
    decreases |b|
  {
    if b == [] {
      assert a + b == a;
    } else {
      var before := b[..|b| - 1];
      SelectAppends(a, before, pattern, show);
      assert (a + b)[..|a + b| - 1] == a + before;
    }
  }

  lemma {:induction false} SelectOne(f: Found, pattern: Bytes, show: bool)
    ensures Select([f], pattern, show) == if Listed(pattern, MemberOf(f, show).name) then [MemberOf(f, show)] else []
  {
    assert [f][..0] == [];
  }

  // ----------------------------------------------------------- computation

  /** The state of the listing across blocks. */
  class Listing {
    const pattern: Bytes
    const show: bool
    const max: int
    var members: seq<Member>
    var total: nat

    constructor (pattern: Bytes, show: bool, max: int)
      ensures this.pattern == pattern && this.show == show && this.max == max && members == [] && total == 0
    {
      this.pattern, this.show, this.max := pattern, show, max;
      members, total := [], 0;
    }

    /** Everything selected so far is listed; the limit has not been passed. */
    ghost predicate Holds(fs: seq<Found>)
      reads this
    {
      members == Select(fs, pattern, show) && total == |members| && (total > 0 ==> total <= max)
    }

    /** One entry. False once the limit is passed. */
    method Offer(f: Found, ghost before: seq<Found>) returns (ok: bool)
      requires Holds(before)
      modifies this
      ensures ok ==> Holds(before + [f])
      ensures !ok ==> Overfull(before + [f])
    {
      SelectAppends(before, [f], pattern, show);
      SelectOne(f, pattern, show);
      hide Select, Listed, CName;
      var m := MemberOf(f, show);
      var accepted := Accepts(m.name);
      if accepted {
        total := total + 1;
        if total > max { return false; }
        members := members + [m];
      } else {
        assert members + [] == members;
      }
      return true;
    }

    method Accepts(name: Bytes) returns (accepted: bool)
      requires NUL !in name
      ensures accepted == Listed(pattern, name)
    {
      if pattern == [] { return true; }
      accepted := Wildcard.IsMatch(name, CString(UpperAll(pattern)));
    }

    /** The loop over one block. Positions stay inside the used part, for any bytes. */
    method WalkBlock(used: nat, data: Bytes, ghost before: seq<Found>) returns (ok: bool)
      requires used <= |data| && Holds(before)
      modifies this
      ensures ok ==> Holds(before + Walk(used, data, 0))
      ensures !ok ==> exists n :: 0 <= n <= |Walk(used, data, 0)| && Overfull(before + Walk(used, data, 0)[..n])
    {
      hide Walk, Select, FoundAt, EndMark, UserLength, Holds, Overfull;
      var i, at := 0, 0;
      ghost var seen, all := [], Walk(used, data, 0);
      assert before + [] == before;
      assert [] + all == all;
      while i < used
        invariant 0 <= i && at == i && all == seen + Walk(used, data, i)
        invariant Holds(before + seen)
        decreases used - i
      {
        WalkUnfold(used, data, i);
        if i + ENTRY_SIZE > used { break; }
        if EndMark(data[at..at + 8]) { break; }
        var f := FoundAt(used, data, at);
        var len := ENTRY_SIZE + UserLength(data[at + 11]);
        ghost var next := seen + [f];
        assert before + seen + [f] == before + next;
        assert all == next + Walk(used, data, i + len);
        ok := Offer(f, before + seen);
        if !ok {
          assert all[..|next|] == next;
          return false;
        }
        seen := next;
        at := at + len;
        i := i + len;
      }
      WalkUnfold(used, data, i);
      assert all == seen + [] == seen;
      return true;
    }

    /** More entries are selected than the limit, and exactly the first ones are listed. */
    ghost predicate Overfull(fs: seq<Found>)
      reads this
    {
      var all := Select(fs, pattern, show);
      all != [] && |all| > max && members == FirstOf(all, max)
    }
  }

  lemma {:induction false} WalkUnfold(used: nat, data: Bytes, i: nat)
    requires used <= |data|
    ensures i + ENTRY_SIZE > used || EndMark(data[i..i + 8]) ==> Walk(used, data, i) == []
    ensures !(i + ENTRY_SIZE > used || EndMark(data[i..i + 8])) ==>
              Walk(used, data, i) ==
              [FoundAt(used, data, i)] + Walk(used, data, i + ENTRY_SIZE + UserLength(data[i + 11]))
  {
  }

  /** A longer walk selects a longer sequence with the same beginning. */
  lemma {:induction false} FirstOfStable(a: seq<Found>, b: seq<Found>, pattern: Bytes, show: bool, max: int)
    requires Select(a, pattern, show) != [] && |Select(a, pattern, show)| > max
    ensures Select(a + b, pattern, show) != [] && |Select(a + b, pattern, show)| > max
    ensures FirstOf(Select(a + b, pattern, show), max) == FirstOf(Select(a, pattern, show), max)
  {
    SelectAppends(a, b, pattern, show);
    hide Select;
    var x, y := Select(a, pattern, show), Select(b, pattern, show);
    if max > 0 { assert (x + y)[..max] == x[..max]; }
  }

  ghost predicate AllValid(blocks: seq<Block>) {
    forall k :: 0 <= k < |blocks| ==> blocks[k].Valid()
  }

  lemma {:induction false} AllFoundNext(blocks: seq<Block>, k: nat)
    requires AllValid(blocks) && k < |blocks|
    ensures AllValid(blocks[..k]) && AllValid(blocks[..k + 1])
    ensures AllFound(blocks[..k + 1]) == AllFound(blocks[..k]) + Walk(blocks[k].Used(), blocks[k].rest, 0)
  {
    assert blocks[..k + 1][..k] == blocks[..k];
  }

  /** Blocks read later only add at the end. */
  lemma {:induction false} AllFoundExtends(blocks: seq<Block>, k: nat)
    requires AllValid(blocks) && k <= |blocks|
    ensures AllValid(blocks[..k]) && AllFound(blocks[..k]) <= AllFound(blocks)
    decreases |blocks| - k
  {
    if k == |blocks| {
      assert blocks[..k] == blocks;
    } else {
      AllFoundNext(blocks, k);
      AllFoundExtends(blocks, k + 1);
    }
  }

  /** What the diagnostics say. */
  datatype Detail = NoDetail | Truncation | MaxedEntries

  ghost predicate AnyCorrupt(blocks: seq<Block>) {
    exists k :: 0 <= k < |blocks| && blocks[k].count > BLOCK_DATA
  }

  /**
   * The whole listing: in order, the first `max` members that are listed, and a warning exactly when
   * there are more of them or, that not being so, some block's count was corrupt.
   */
  method ListMembers(blocks: seq<Block>, pattern: Bytes, maxEntries: int, show: bool)
    returns (rc: int, detail: Detail, members: seq<Member>)
    requires AllValid(blocks)
    ensures var max := if maxEntries == 0 then DEFAULT_MAX_ENTRIES else maxEntries;
            var all := Select(AllFound(blocks), pattern, show);
            && members == FirstOf(all, max)
            && (rc == if detail.NoDetail? then RTNCD_SUCCESS else RTNCD_WARNING)
            && (detail.MaxedEntries? <==> all != [] && |all| > max)
            && (detail.Truncation? <==> (all == [] || |all| <= max) && AnyCorrupt(blocks))
  {
    hide Walk, Select, AllFound;
    var max := if maxEntries == 0 then DEFAULT_MAX_ENTRIES else maxEntries;
    var listing := new Listing(pattern, show, max);
    var corrupt := false;
    NothingFound(pattern, show);
    for n := 0 to |blocks|
      invariant fresh(listing) && listing.pattern == pattern && listing.show == show && listing.max == max
      invariant AllValid(blocks[..n]) && listing.Holds(AllFound(blocks[..n]))
      invariant corrupt <==> exists k :: 0 <= k < n && blocks[k].count > BLOCK_DATA
    {
      var count := blocks[n].count;
      if count > BLOCK_DATA {
        corrupt := true;
        count := BLOCK_DATA;
      }
      AllFoundNext(blocks, n);
      ghost var before := AllFound(blocks[..n]);
      var ok := listing.WalkBlock(count, blocks[n].rest, before);
      if !ok {
        ghost var walk := Walk(count, blocks[n].rest, 0);
        ghost var m :| 0 <= m <= |walk| && listing.Overfull(before + walk[..m]);
        CutShort(blocks, n, before + walk[..m], pattern, show, max);
        return RTNCD_WARNING, MaxedEntries, listing.members;
      }
    }
    assert blocks[..|blocks|] == blocks;
    members := listing.members;
    rc, detail := RTNCD_SUCCESS, NoDetail;
    if corrupt { rc, detail := RTNCD_WARNING, Truncation; }
  }

  lemma {:induction false} NothingFound(pattern: Bytes, show: bool)
    ensures Select([], pattern, show) == [] && AllFound([]) == []
  {
  }

  lemma {:induction false} CutShort(blocks: seq<Block>, n: nat, part: seq<Found>, pattern: Bytes, show: bool, max: int)
    requires AllValid(blocks) && n < |blocks|
    requires AllValid(blocks[..n + 1]) && part <= AllFound(blocks[..n + 1])
    requires Select(part, pattern, show) != [] && |Select(part, pattern, show)| > max
    ensures var all := Select(AllFound(blocks), pattern, show);
            all != [] && |all| > max && FirstOf(all, max) == FirstOf(Select(part, pattern, show), max)
  {
    AllFoundExtends(blocks, n + 1);
    hide Select, AllFound;
    var all := AllFound(blocks);
    FirstOfStable(part, all[|part|..], pattern, show, max);
    assert part + all[|part|..] == all;
  }

  // ------------------------------------------------------------- names and patterns

  predicate Separator(b: Byte) {
    b == NUL || b == BLANK
  }

  /** The name is the longest front of the field without blank or terminator. */
  lemma {:induction false} NameIsFront(raw: Bytes)
    ensures var n := |CName(raw)|;
            n <= |raw| && CName(raw) == raw[..n] && (forall k :: 0 <= k < n ==> !Separator(raw[k]))
            && (n < |raw| ==> Separator(raw[n]))
    decreases |raw|
  {
    if raw != [] && !Separator(raw[0]) {
      NameIsFront(raw[1..]);
      var n := |CName(raw)|;
      assert forall k :: 1 <= k < n ==> raw[k] == raw[1..][k - 1];
      assert raw[..n] == [raw[0]] + raw[1..][..n - 1];
    }
  }

  /** The pattern is read up to its first terminator. */
  lemma {:induction false} PatternIsFront(s: Bytes)
    ensures var n := |CString(s)|;
            n <= |s| && CString(s) == s[..n] && NUL !in s[..n] && (n < |s| ==> s[n] == NUL)
    decreases |s|
  {
    if s != [] && s[0] != NUL {
      PatternIsFront(s[1..]);
      var n := |CString(s)|;
      assert s[..n] == [s[0]] + s[1..][..n - 1];
    }
  }

  /** The eight-byte field of a name: filled up with blanks. */
  ghost predicate Field(name: Bytes, raw: Bytes) {
    && 1 <= |name| <= 8 && |raw| == 8 && (forall k :: 0 <= k < |name| ==> !Separator(name[k]))
    && raw[..|name|] == name && forall k :: |name| <= k < 8 ==> raw[k] == BLANK
  }

  lemma {:induction false} FieldGivesName(name: Bytes, raw: Bytes)
    requires Field(name, raw)
    ensures CName(raw) == name
  {
    hide CName;
    NameIsFront(raw);
    var n := |CName(raw)|;
    assert forall k :: 0 <= k < |name| ==> raw[k] == name[k];
    assert |name| < 8 ==> Separator(raw[|name|]);
  }

  /** The small letters of IBM-1047 in order, and their capitals. */
  function SmallLetter(k: nat): Byte
    requires k < 26
  {
    if k < 9 then 0x81 + k else if k < 18 then 0x91 + k - 9 else 0xA2 + k - 18
  }

  function CapitalLetter(k: nat): Byte
    requires k < 26
  {
    if k < 9 then 0xC1 + k else if k < 18 then 0xD1 + k - 9 else 0xE2 + k - 18
  }

  /** The capital of a small letter; any other byte is its own. */
  ghost predicate Capital(c: Byte, u: Byte) {
    || (exists k: nat :: k < 26 && c == SmallLetter(k) && u == CapitalLetter(k))
    || (u == c && forall k: nat :: k < 26 ==> c != SmallLetter(k))
  }

  lemma {:induction false} UpperIsCapital(c: Byte)
    ensures Capital(c, Upper(c))
  {
    var k := if c <= 0x89 then c - 0x81 else if c <= 0x99 then c - 0x91 + 9 else c - 0xA2 + 18;
    if Upper(c) != c { assert 0 <= k < 26 && c == SmallLetter(k) && Upper(c) == CapitalLetter(k); }
  }

  /** The same letters, small or capital in the pattern. */
  ghost predicate Spells(pattern: Bytes, name: Bytes) {
    |pattern| == |name| && forall k :: 0 <= k < |name| ==> Capital(pattern[k], name[k])
  }

  lemma {:induction false} OneCapital(c: Byte, u: Byte, v: Byte)
    requires Capital(c, u) && Capital(c, v)
    ensures u == v
  {
  }

  /** A pattern without wildcards lists exactly the names it spells, whether with small letters or capitals. */
  lemma {:induction false} LiteralPattern(pattern: Bytes, name: Bytes)
    requires pattern != [] && STAR !in name
    requires STAR !in pattern && QUESTION !in pattern && NUL !in pattern
    ensures Listed(pattern, name) <==> Spells(pattern, name)
  {
    hide Listed, Capital, Upper, CString;
    var upper := UpperAll(pattern);
    forall k | 0 <= k < |pattern| ensures upper[k] == Upper(pattern[k]) && Capital(pattern[k], upper[k]) {
      UpperIsCapital(pattern[k]);
    }
    UpperIsPlain(pattern);
    PatternIsFront(upper);
    assert CString(upper) == upper;
    ListedByMeaning(pattern, name);
    LiteralGlob(upper, name);
    if Spells(pattern, name) {
      forall k | 0 <= k < |name| ensures upper[k] == name[k] { OneCapital(pattern[k], upper[k], name[k]); }
      assert upper == name;
    }
  }

  lemma {:induction false} UpperIsPlain(pattern: Bytes)
    requires STAR !in pattern && QUESTION !in pattern && NUL !in pattern
    ensures var u := UpperAll(pattern); STAR !in u && QUESTION !in u && NUL !in u
  {
    var u := UpperAll(pattern);
    forall k | 0 <= k < |u| ensures u[k] != STAR && u[k] != QUESTION && u[k] != NUL {
      assert pattern[k] in pattern;
    }
  }

  lemma {:induction false} LiteralGlob(p: Bytes, s: Bytes)
    requires STAR !in p && QUESTION !in p
    ensures Wildcard.Glob(p, s) <==> p == s
    decreases |p|
  {
    if p != [] {
      assert p[0] in p && p == [p[0]] + p[1..];
      if s != [] {
        assert s == [s[0]] + s[1..];
        LiteralGlob(p[1..], s[1..]);
      }
    }
  }

  // ------------------------------------------------------------------- end to end

  /** A member as it was laid out: its name, and its user data if it is wanted and long enough for statistics. */
  function LaidMember(e: Entry, name: Bytes, show: bool): Member {
    Member(name, if show && |e.user| >= STATS_SIZE then Some(e.user) else None)
  }

  /** What the pattern means for a name, said without the matcher. */
  ghost predicate Wanted(pattern: Bytes, name: Bytes) {
    pattern == [] || Wildcard.Glob(CString(UpperAll(pattern)), name)
  }

  ghost function Chosen(es: seq<Entry>, names: seq<Bytes>, pattern: Bytes, show: bool): seq<Member>
    requires |es| == |names|
  {
    if es == [] then [] else
      var n := |es| - 1;
      Chosen(es[..n], names[..n], pattern, show)
      + if Wanted(pattern, names[n]) then [LaidMember(es[n], names[n], show)] else []
  }

  ghost predicate NamesOf(es: seq<Entry>, names: seq<Bytes>) {
    |es| == |names| && forall k :: 0 <= k < |es| ==>
      WellFormed(es[k]) && Field(names[k], es[k].name) && STAR !in names[k]
  }

  /** The block holds these entries and nothing more in its used part; a corrupt count uses all of it. */
  ghost predicate LaidOut(b: Block, es: seq<Entry>) {
    b.Valid() && (forall k :: 0 <= k < |es| ==> WellFormed(es[k]))
    && exists tail :: b.rest[..if b.count > 254 then 254 else b.count] == LayAll(es) + tail && Tail(tail)
  }

  /** Of the information byte, alias bit and pointer count aside, five bits count the halfwords of user data. */
  lemma {:induction false} FiveBitsOfHalfwords(alias: bool, pointers: nat, halfwords: nat, info: Byte)
    requires pointers < 4 && halfwords < 32 && info == (if alias then 128 else 0) + 32 * pointers + halfwords
    ensures UserLength(info) == 2 * halfwords
  {
  }

  lemma {:induction false} FoundLast(es: seq<Entry>, e: Entry)
    ensures FoundAll(es + [e]) == FoundAll(es) + [FoundOf(e)]
    decreases |es|
  {
    hide FoundOf;
    if es == [] {
      assert es + [e] == [e] && [e][1..] == [];
    } else {
      assert (es + [e])[1..] == es[1..] + [e];
      FoundLast(es[1..], e);
    }
  }

  lemma {:induction false} FoundJoins(a: seq<Entry>, b: seq<Entry>)
    ensures FoundAll(a + b) == FoundAll(a) + FoundAll(b)
    decreases |b|
  {
    hide FoundAll, FoundOf;
    NoneFound();
    if b == [] {
      assert a + b == a && FoundAll(a) + [] == FoundAll(a);
    } else {
      var n := |b| - 1;
      assert a + b == (a + b[..n]) + [b[n]] && b == b[..n] + [b[n]];
      FoundJoins(a, b[..n]);
      FoundLast(a + b[..n], b[n]);
      FoundLast(b[..n], b[n]);
    }
  }

  lemma {:induction false} NoneFound()
    ensures FoundAll([]) == []
  {
  }

  /** What is found in laid-out entries is chosen by name and pattern, and nothing else of them is lost. */
  lemma {:induction false} SelectsChosen(es: seq<Entry>, names: seq<Bytes>, pattern: Bytes, show: bool)
    requires NamesOf(es, names)
    ensures Select(FoundAll(es), pattern, show) == Chosen(es, names, pattern, show)
    decreases |es|
  {
    hide Select, FoundAll, FoundOf, Field, WellFormed, Listed, Wanted, MemberOf;
    NoneFound();
    if es == [] {
      NothingFound(pattern, show);
    } else {
      var n := |es| - 1;
      assert es == es[..n] + [es[n]];
      SelectsChosen(es[..n], names[..n], pattern, show);
      FoundLast(es[..n], es[n]);
      SelectAppends(FoundAll(es[..n]), [FoundOf(es[n])], pattern, show);
      SelectOne(FoundOf(es[n]), pattern, show);
      MemberIsLaid(es[n], names[n], pattern, show);
    }
  }

  lemma {:induction false} MemberIsLaid(e: Entry, name: Bytes, pattern: Bytes, show: bool)
    requires WellFormed(e) && Field(name, e.name) && STAR !in name
    ensures MemberOf(FoundOf(e), show) == LaidMember(e, name, show)
    ensures Listed(pattern, name) <==> Wanted(pattern, name)
  {
    hide Field, CName, Listed;
    FieldGivesName(name, e.name);
    if pattern != [] { ListedByMeaning(pattern, name); } else { EverythingListed(name); }
  }

  lemma {:induction false} EverythingListed(name: Bytes)
    ensures Listed([], name)
  {
  }

  lemma {:induction false} AllFoundLaid(blocks: seq<Block>, parts: seq<seq<Entry>>)
    requires |blocks| == |parts| && forall k :: 0 <= k < |blocks| ==> LaidOut(blocks[k], parts[k])
    ensures AllValid(blocks) && AllFound(blocks) == FoundAll(Concat(parts))
    decreases |blocks|
  {
    hide FoundAll, Walk, LayAll, Tail, WellFormed;
    NoneFound();
    if blocks != [] {
      var n := |blocks| - 1;
      AllFoundLaid(blocks[..n], parts[..n]);
      var b, es := blocks[n], parts[n];
      assert LaidOut(b, es);
      var tail :| b.rest[..if b.count > 254 then 254 else b.count] == LayAll(es) + tail && Tail(tail);
      assert [] + LayAll(es) + tail == LayAll(es) + tail;
      WalkFindsLayout([], es, tail, b.Used(), b.rest);
      FoundJoins(Concat(parts[..n]), es);
    }
  }

  /** Blocks laid out from entries with given names list exactly the members whose names the pattern means, in order. */
  lemma {:induction false} ListsWhatWasLaidOut(
      blocks: seq<Block>, parts: seq<seq<Entry>>, names: seq<Bytes>, pattern: Bytes, show: bool)
    requires |blocks| == |parts| && forall k :: 0 <= k < |blocks| ==> LaidOut(blocks[k], parts[k])
    requires NamesOf(Concat(parts), names)
    ensures AllValid(blocks)
    ensures Select(AllFound(blocks), pattern, show) == Chosen(Concat(parts), names, pattern, show)
  {
    hide LaidOut, NamesOf, Select, AllFound, Chosen;
    AllFoundLaid(blocks, parts);
    SelectsChosen(Concat(parts), names, pattern, show);
  }
}
