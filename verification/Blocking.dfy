/**
 * Blocking of member records into physical blocks: what the buffered writer puts on the
 * volume for fixed, variable and variable blocked data sets, and how a reader takes it apart.
 */
module Blocking {
  import opened Native

  datatype Recfm = Fixed | Variable | VariableBlocked

  /** Attributes of an open data set; lengths are halfwords. */
  datatype Attrs = Attrs(recfm: Recfm, lrecl: nat, blksize: nat) {
    /** What the open path validates. A variable LRECL covers at least its own descriptor word. */
    ghost predicate Valid() {
      && 1 <= blksize < 0x8000
      && (if recfm.Fixed? then lrecl > 0 && Divides(lrecl, blksize) else 4 <= lrecl && lrecl + 4 <= blksize)
    }

    /** The record made of a line: cut to what LRECL leaves for data, and blank padded if fixed. */
    function RecordOf(data: Bytes): (r: Bytes)
      requires recfm.Fixed? || lrecl >= 4
      ensures recfm.Fixed? ==> |r| == lrecl
    {
      if recfm.Fixed? then
        var cut := if |data| > lrecl then data[..lrecl] else data;
        cut + seq(lrecl - |cut|, _ => BLANK)
      else
        if |data| > lrecl - 4 then data[..lrecl - 4] else data
    }
  }

  /** A record keeps the front of its line, as much as there is room for; a fixed one is filled with blanks. */
  lemma {:induction false} RecordKeepsFront(a: Attrs, data: Bytes)
    requires a.recfm.Fixed? || a.lrecl >= 4
    ensures var r := a.RecordOf(data);
            var room: nat := if a.recfm.Fixed? then a.lrecl else a.lrecl - 4;
            var kept := if |data| <= room then |data| else room;
            && r[..kept] == data[..kept] && (forall k :: kept <= k < |r| ==> r[k] == BLANK)
            && |r| == if a.recfm.Fixed? then a.lrecl else kept
  {
  }

  ghost predicate Divides(d: nat, n: nat) {
    exists k: nat :: k * d == n
  }

  /** A halfword, high byte first. */
  function Half(n: nat): (h: Bytes)
    requires n < 0x8000
    ensures |h| == 2
  {
    [n / 256, n % 256]
  }

  /** A block or record descriptor word. */
  function Descriptor(n: nat): (d: Bytes)
    requires n < 0x8000
    ensures |d| == 4
  {
    Half(n) + [0, 0]
  }

  lemma {:induction false} DescriptorBytes(n: nat)
    requires n < 0x8000
    ensures Descriptor(n) == [n / 256, n % 256, 0, 0]
  {
  }

  // ------------------------------------------------------------ the reader

  /** How a record lies inside a block. */
  function Frame(fixed: bool, r: Bytes): (f: Bytes)
    requires fixed || |r| + 4 < 0x8000
    ensures |f| == if fixed then |r| else |r| + 4
  {
    if fixed then r else Descriptor(|r| + 4) + r
  }

  /** The length of the frame at the head of a block's records, if there is a proper one. */
  function FrameLength(fixed: bool, lrecl: nat, p: Bytes): (n: Option<nat>)
    ensures n.Some? ==> 0 < n.value <= |p| && (!fixed ==> 4 <= n.value)
  {
    if fixed then
      if 0 < lrecl <= |p| then Some(lrecl) else None
    else if |p| < 4 || p[2] != 0 || p[3] != 0 then None
    else
      var n := p[0] as int * 256 + p[1];
      if 4 <= n <= |p| then Some(n) else None
  }

  /** Reads the records off a block's contents: every byte has to belong to one. */
  function Parse(fixed: bool, lrecl: nat, p: Bytes): Option<seq<Bytes>>
    decreases |p|
  {
    if p == [] then Some([]) else
      var n := FrameLength(fixed, lrecl, p);
      if n.None? then None else
        var rest := Parse(fixed, lrecl, p[n.value..]);
        if rest.None? then None
        else Some([Body(fixed, p[..n.value])] + rest.value)
  }

  /** The record inside a frame. */
  function Body(fixed: bool, frame: Bytes): Bytes {
    if fixed || |frame| < 4 then frame else frame[4..]
  }

  /** A block's contents: everything if fixed, else what follows a truthful block descriptor word. */
  function Contents(fixed: bool, block: Bytes): Option<Bytes> {
    if fixed then Some(block)
    else if |block| >= 4 && block[..4] == [|block| / 256 % 256, |block| % 256, 0, 0] && |block| < 0x8000
    then Some(block[4..])
    else None
  }

  /** All the records of all the blocks in order. */
  function Deblock(a: Attrs, blocks: seq<Bytes>): Option<seq<Bytes>> {
    if blocks == [] then Some([]) else
      var before := Deblock(a, blocks[..|blocks| - 1]);
      var last := ParseBlock(a, blocks[|blocks| - 1]);
      if before.None? || last.None? then None else Some(before.value + last.value)
  }

  function ParseBlock(a: Attrs, block: Bytes): Option<seq<Bytes>> {
    var c := Contents(a.recfm.Fixed?, block);
    if c.None? then None else Parse(a.recfm.Fixed?, a.lrecl, c.value)
  }

  // ------------------------------------------------------------ the writer

  /** The blocks on the volume and the record frames still in the buffer. */
  datatype Volume = Volume(blocks: seq<Bytes>, pending: Bytes)

  function Block(a: Attrs, pending: Bytes): Bytes
    requires a.recfm.Fixed? || |pending| + 4 < 0x8000
  {
    if a.recfm.Fixed? then pending else Descriptor(|pending| + 4) + pending
  }

  /** The buffer holds what the attributes allow it to hold. */
  ghost predicate InBounds(a: Attrs, v: Volume) {
    match a.recfm
    case Fixed => |v.pending| < a.blksize && Divides(a.lrecl, |v.pending|)
    case Variable => v.pending == []
    case VariableBlocked => |v.pending| + 4 <= a.blksize
  }

  function WriteOut(a: Attrs, v: Volume): Volume
    requires a.recfm.Fixed? || |v.pending| + 4 < 0x8000
  {
    Volume(v.blocks + [Block(a, v.pending)], [])
  }

  /** Whether a record finds room in an empty buffer: the blocked writer asks for strictly less. */
  predicate Fits(a: Attrs, r: Bytes) {
    a.recfm.VariableBlocked? ==> |r| + 4 < a.blksize - 4
  }

  /** One record, as the writer's branches decide. */
  function Put(a: Attrs, v: Volume, data: Bytes): Volume
    requires a.Valid() && InBounds(a, v)
  {
    var r := a.RecordOf(data);
    match a.recfm
    case Fixed =>
      var v' := v.(pending := v.pending + r);
      if |v'.pending| >= a.blksize then WriteOut(a, v') else v'
    case Variable =>
      WriteOut(a, v.(pending := v.pending + Frame(false, r)))
    case VariableBlocked =>
      var v' := if |r| + 4 >= a.blksize - (4 + |v.pending|) then WriteOut(a, v) else v;
      if |r| + 4 < a.blksize - (4 + |v'.pending|) then v'.(pending := v'.pending + Frame(false, r)) else v'
  }

  /** The final flush: nothing is written for an empty buffer. */
  function Flush(a: Attrs, v: Volume): Volume
    requires a.Valid() && InBounds(a, v)
  {
    if v.pending == [] then v else WriteOut(a, v)
  }

  /** The volume after writing lines in order. */
  function WriteAll(a: Attrs, lines: seq<Bytes>): (v: Volume)
    requires a.Valid()
    ensures InBounds(a, v)
  {
    if lines == [] then EmptyInBounds(a); Volume([], [])
    else
      var before := WriteAll(a, lines[..|lines| - 1]);
      PutInBounds(a, before, lines[|lines| - 1]);
      Put(a, before, lines[|lines| - 1])
  }

  lemma {:induction false} EmptyInBounds(a: Attrs)
    requires a.Valid()
    ensures forall blocks :: InBounds(a, Volume(blocks, []))
  {
    assert 0 * a.lrecl == 0;
  }

  /** Blocks never grow past BLKSIZE: a fixed buffer fills exactly. */
  lemma {:induction false} PutInBounds(a: Attrs, v: Volume, data: Bytes)
    requires a.Valid() && InBounds(a, v)
    ensures InBounds(a, Put(a, v, data))
  {
    EmptyInBounds(a);
    if a.recfm.Fixed? { NextMultiple(a.lrecl, |v.pending|, a.blksize); }
  }

  lemma {:induction false} NextMultiple(d: nat, n: nat, bound: nat)
    requires d > 0 && n < bound && Divides(d, n) && Divides(d, bound)
    ensures Divides(d, n + d) && n + d <= bound
  {
    var k: nat :| k * d == n;
    var m: nat :| m * d == bound;
    if m <= k { Scale(m, k, d); }
    Scale(k + 1, m, d);
    assert (k + 1) * d == n + d by { Distribute(k, d); }
  }

  lemma {:induction false} Scale(x: nat, y: nat, d: nat)
    requires x <= y
    ensures x * d <= y * d
  {
  }

  lemma {:induction false} Distribute(k: nat, d: nat)
    ensures (k + 1) * d == k * d + d
  {
  }

  // ---------------------------------------------------------- what is read back

  /** The records that find room. */
  function Kept(a: Attrs, lines: seq<Bytes>): seq<Bytes>
    requires a.recfm.Fixed? || a.lrecl >= 4
  {
    if lines == [] then [] else
      var r := a.RecordOf(lines[|lines| - 1]);
      Kept(a, lines[..|lines| - 1]) + if Fits(a, r) then [r] else []
  }

  /** A reader of the volume, once the buffer is flushed, will see `rs`. */
  ghost predicate Reads(a: Attrs, v: Volume, rs: seq<Bytes>) {
    var done, left := Deblock(a, v.blocks), Parse(a.recfm.Fixed?, a.lrecl, v.pending);
    done.Some? && left.Some? && rs == done.value + left.value
  }

  lemma {:induction false} FrameParses(fixed: bool, lrecl: nat, r: Bytes, rest: Bytes)
    requires if fixed then |r| == lrecl > 0 else |r| + 4 < 0x8000
    ensures FrameLength(fixed, lrecl, Frame(fixed, r) + rest) == Some(|Frame(fixed, r)|)
  {
  }

  /** The frame at the head does not depend on what follows. */
  lemma {:induction false} HeadFrame(fixed: bool, lrecl: nat, p: Bytes, more: Bytes)
    requires FrameLength(fixed, lrecl, p).Some?
    ensures FrameLength(fixed, lrecl, p + more) == FrameLength(fixed, lrecl, p)
  {
  }

  lemma {:induction false} OneFrame(fixed: bool, lrecl: nat, r: Bytes)
    requires if fixed then |r| == lrecl > 0 else |r| + 4 < 0x8000
    ensures Parse(fixed, lrecl, Frame(fixed, r)) == Some([r])
  {
    var f := Frame(fixed, r);
    FrameParses(fixed, lrecl, r, []);
    assert f + [] == f && f[..|f|] == f && f[|f|..] == [];
    assert Body(fixed, f) == r;
    assert [r] + [] == [r];
  }

  lemma {:induction false} ParseHead(fixed: bool, lrecl: nat, frame: Bytes, rest: Bytes)
    requires FrameLength(fixed, lrecl, frame + rest) == Some(|frame|)
    ensures Parse(fixed, lrecl, frame + rest).Some? <==> Parse(fixed, lrecl, rest).Some?
    ensures Parse(fixed, lrecl, rest).Some? ==>
              Parse(fixed, lrecl, frame + rest).value == [Body(fixed, frame)] + Parse(fixed, lrecl, rest).value
  {
    assert (frame + rest)[..|frame|] == frame && (frame + rest)[|frame|..] == rest;
  }

  /** One more frame at the end is one more record at the end. */
  lemma {:induction false} ParseAppend(fixed: bool, lrecl: nat, p: Bytes, r: Bytes)
    requires if fixed then |r| == lrecl > 0 else |r| + 4 < 0x8000
    requires Parse(fixed, lrecl, p).Some?
    ensures Parse(fixed, lrecl, p + Frame(fixed, r)) == Some(Parse(fixed, lrecl, p).value + [r])
    decreases |p|
  {
    var f := Frame(fixed, r);
    if p == [] {
      OneFrame(fixed, lrecl, r);
      assert p + f == f && [] + [r] == [r];
    } else {
      var n := FrameLength(fixed, lrecl, p).value;
      HeadFrame(fixed, lrecl, p, f);
      hide FrameLength, Frame, Body, Parse;
      var head, rest := p[..n], p[n..];
      assert p == head + rest && p + f == head + (rest + f);
      ParseHead(fixed, lrecl, head, rest);
      ParseHead(fixed, lrecl, head, rest + f);
      ParseAppend(fixed, lrecl, rest, r);
      Shift([Body(fixed, head)], Parse(fixed, lrecl, rest).value, [r]);
    }
  }

  lemma {:induction false} Shift(x: seq<Bytes>, y: seq<Bytes>, z: seq<Bytes>)
    ensures x + (y + z) == x + y + z
  {
  }

  lemma {:induction false} BlockReads(a: Attrs, pending: Bytes)
    requires a.recfm.Fixed? || |pending| + 4 < 0x8000
    ensures Contents(a.recfm.Fixed?, Block(a, pending)) == Some(pending)
  {
  }

  lemma {:induction false} WriteOutReads(a: Attrs, v: Volume, rs: seq<Bytes>)
    requires Reads(a, v, rs) && (a.recfm.Fixed? || |v.pending| + 4 < 0x8000)
    ensures Reads(a, WriteOut(a, v), rs)
  {
    BlockReads(a, v.pending);
    var v' := WriteOut(a, v);
    assert v'.blocks[..|v'.blocks| - 1] == v.blocks;
  }

  lemma {:induction false} AppendReads(a: Attrs, v: Volume, rs: seq<Bytes>, r: Bytes)
    requires Reads(a, v, rs)
    requires if a.recfm.Fixed? then |r| == a.lrecl > 0 else |r| + 4 < 0x8000
    ensures Reads(a, v.(pending := v.pending + Frame(a.recfm.Fixed?, r)), rs + [r])
  {
    ParseAppend(a.recfm.Fixed?, a.lrecl, v.pending, r);
  }

  lemma {:induction false} FixedFrame(r: Bytes)
    ensures Frame(true, r) == r
  {
  }

  lemma {:induction false} PutReads(a: Attrs, v: Volume, rs: seq<Bytes>, data: Bytes)
    requires a.Valid() && InBounds(a, v) && Reads(a, v, rs)
    ensures var r := a.RecordOf(data); Reads(a, Put(a, v, data), rs + if Fits(a, r) then [r] else [])
  {
    var r := a.RecordOf(data);
    assert rs + [] == rs;
    hide Reads, Frame, Block;
    match a.recfm
    case Fixed =>
      FixedFrame(r);
      AppendReads(a, v, rs, r);
      WriteOutReads(a, v.(pending := v.pending + r), rs + [r]);
    case Variable =>
      AppendReads(a, v, rs, r);
      WriteOutReads(a, v.(pending := v.pending + Frame(false, r)), rs + [r]);
    case VariableBlocked =>
      WriteOutReads(a, v, rs);
      AppendReads(a, v, rs, r);
      AppendReads(a, WriteOut(a, v), rs, r);
  }

  lemma {:induction false} WriteAllReads(a: Attrs, lines: seq<Bytes>)
    requires a.Valid()
    ensures Reads(a, WriteAll(a, lines), Kept(a, lines))
  {
    if lines != [] {
      var before, last := lines[..|lines| - 1], lines[|lines| - 1];
      WriteAllReads(a, before);
      PutReads(a, WriteAll(a, before), Kept(a, before), last);
    }
  }

  /** Deblocking what was written and flushed gives back, in order, the records that found room. */
  lemma {:induction false} DeblockUndoesBlocking(a: Attrs, lines: seq<Bytes>)
    requires a.Valid()
    ensures Deblock(a, Flush(a, WriteAll(a, lines)).blocks) == Some(Kept(a, lines))
  {
    var v := WriteAll(a, lines);
    WriteAllReads(a, lines);
    if v.pending != [] { WriteOutReads(a, v, Kept(a, lines)); }
    FlushedReads(a, Flush(a, v), Kept(a, lines));
  }

  lemma {:induction false} FlushedReads(a: Attrs, v: Volume, rs: seq<Bytes>)
    requires Reads(a, v, rs) && v.pending == []
    ensures Deblock(a, v.blocks) == Some(rs)
  {
    var done := Deblock(a, v.blocks).value;
    assert done + [] == done;
  }

  /** Every line comes back, as its record, in order. */
  ghost predicate Lossless(a: Attrs, lines: seq<Bytes>)
    requires a.Valid()
  {
    Deblock(a, Flush(a, WriteAll(a, lines)).blocks)
    == Some(seq(|lines|, k requires 0 <= k < |lines| => a.RecordOf(lines[k])))
  }

  lemma {:induction false} KeptAll(a: Attrs, lines: seq<Bytes>)
    requires a.recfm.Fixed? || a.lrecl >= 4
    ensures |Kept(a, lines)| <= |lines|
    ensures (forall k :: 0 <= k < |lines| ==> Fits(a, a.RecordOf(lines[k]))) ==>
              Kept(a, lines) == seq(|lines|, k requires 0 <= k < |lines| => a.RecordOf(lines[k]))
    ensures |Kept(a, lines)| == |lines| ==> forall k :: 0 <= k < |lines| ==> Fits(a, a.RecordOf(lines[k]))
  {
    if lines != [] {
      var before := lines[..|lines| - 1];
      KeptAll(a, before);
      if forall k :: 0 <= k < |lines| ==> Fits(a, a.RecordOf(lines[k])) {
        assert forall k :: 0 <= k < |before| ==> before[k] == lines[k];
      }
      if |Kept(a, lines)| == |lines| {
        forall k | 0 <= k < |lines| ensures Fits(a, a.RecordOf(lines[k])) {
          if k < |before| { assert before[k] == lines[k]; }
        }
      }
    }
  }

  /** Lines are kept exactly when each record's length leaves BLKSIZE more than eight bytes over. */
  lemma {:induction false} LosslessIffAllFit(a: Attrs, lines: seq<Bytes>)
    requires a.Valid()
    ensures Lossless(a, lines) <==> forall k :: 0 <= k < |lines| ==> Fits(a, a.RecordOf(lines[k]))
  {
    DeblockUndoesBlocking(a, lines);
    KeptAll(a, lines);
  }

  /** No line can ever be lost exactly when BLKSIZE is more than LRECL + 4 (or the data set is not blocked). */
  lemma {:induction false} LosslessForAllLines(a: Attrs)
    requires a.Valid()
    ensures (forall lines :: Lossless(a, lines)) <==> a.recfm != VariableBlocked || a.blksize > a.lrecl + 4
  {
    if a.recfm != VariableBlocked || a.blksize > a.lrecl + 4 {
      forall lines ensures Lossless(a, lines) { LosslessIffAllFit(a, lines); }
    } else {
      var full: Bytes := seq(a.lrecl - 4, _ => BLANK);
      LosslessIffAllFit(a, [full]);
      assert !Fits(a, a.RecordOf([full][0]));
    }
  }

  // ----------------------------------------------------------- shape of the blocks

  /** A block a reader can take: within BLKSIZE, its descriptor truthful, its frames tiling it, not empty. */
  ghost predicate Proper(a: Attrs, block: Bytes) {
    |block| <= a.blksize && ParseBlock(a, block).Some? && ParseBlock(a, block).value != []
  }

  ghost predicate AllProper(a: Attrs, v: Volume) {
    && (forall k :: 0 <= k < |v.blocks| ==> Proper(a, v.blocks[k]))
    && Parse(a.recfm.Fixed?, a.lrecl, v.pending).Some?
  }

  lemma {:induction false} WriteOutProper(a: Attrs, v: Volume)
    requires AllProper(a, v) && v.pending != []
    requires if a.recfm.Fixed? then |v.pending| <= a.blksize else |v.pending| + 4 <= a.blksize < 0x8000
    ensures AllProper(a, WriteOut(a, v))
  {
    BlockReads(a, v.pending);
  }

  lemma {:induction false} AppendProper(a: Attrs, v: Volume, r: Bytes)
    requires AllProper(a, v)
    requires if a.recfm.Fixed? then |r| == a.lrecl > 0 else |r| + 4 < 0x8000
    ensures AllProper(a, v.(pending := v.pending + Frame(a.recfm.Fixed?, r)))
  {
    ParseAppend(a.recfm.Fixed?, a.lrecl, v.pending, r);
  }

  lemma {:induction false} PutProper(a: Attrs, v: Volume, data: Bytes)
    requires a.Valid() && InBounds(a, v) && AllProper(a, v) && Fits(a, a.RecordOf(data))
    ensures AllProper(a, Put(a, v, data))
  {
    var r := a.RecordOf(data);
    hide AllProper, Block;
    match a.recfm
    case Fixed =>
      NextMultiple(a.lrecl, |v.pending|, a.blksize);
      AppendProper(a, v, r);
      WriteOutProper(a, v.(pending := v.pending + Frame(true, r)));
    case Variable =>
      AppendProper(a, v, r);
      WriteOutProper(a, v.(pending := v.pending + Frame(false, r)));
    case VariableBlocked =>
      AppendProper(a, v, r);
      if |r| + 4 >= a.blksize - (4 + |v.pending|) {
        WriteOutProper(a, v);
        AppendProper(a, WriteOut(a, v), r);
      }
  }

  lemma {:induction false} WriteAllProper(a: Attrs, lines: seq<Bytes>)
    requires a.Valid() && forall k :: 0 <= k < |lines| ==> Fits(a, a.RecordOf(lines[k]))
    ensures AllProper(a, WriteAll(a, lines))
  {
    if lines != [] {
      var before := lines[..|lines| - 1];
      assert forall k :: 0 <= k < |before| ==> before[k] == lines[k];
      WriteAllProper(a, before);
      PutProper(a, WriteAll(a, before), lines[|lines| - 1]);
    }
  }

  /** When every record fits, every block on the volume is proper. */
  lemma {:induction false} BlocksAreProper(a: Attrs, lines: seq<Bytes>)
    requires a.Valid() && forall k :: 0 <= k < |lines| ==> Fits(a, a.RecordOf(lines[k]))
    ensures forall b :: b in Flush(a, WriteAll(a, lines)).blocks ==> Proper(a, b)
  {
    var v := WriteAll(a, lines);
    WriteAllProper(a, lines);
    if v.pending != [] { WriteOutProper(a, v); }
  }

  /**
   * At BLKSIZE = LRECL + 4, which the open path accepts, a full-length line is not only
   * lost: a block holding nothing but its descriptor word is written in its place.
   */
  lemma {:induction false} FullLineAtTightBlksize(lrecl: nat)
    requires 4 <= lrecl && lrecl + 4 < 0x8000
    ensures var a := Attrs(VariableBlocked, lrecl, lrecl + 4);
            && a.Valid()
            && Flush(a, WriteAll(a, [seq(lrecl - 4, _ => BLANK)])).blocks == [Descriptor(4)]
  {
    var a := Attrs(VariableBlocked, lrecl, lrecl + 4);
    var line: Bytes := seq(lrecl - 4, _ => BLANK);
    assert [line][..0] == [];
    assert WriteAll(a, [line]) == Put(a, Volume([], []), line);
    assert Descriptor(4) + [] == Descriptor(4);
  }

  // ------------------------------------------------------------ computation

  /** The device's answer to a write: the block is taken, or the DCB abends and it is not. */
  datatype Answer = Taken | Abend

  const RTNCD_SUCCESS := 0
  const RTNCD_FAILURE := -1

  /** A descriptor and a record behind what was there. */
  lemma {:induction false} FrameLaid(was: Bytes, now: Bytes, at: nat, data: Bytes)
    requires |was| == |now| && 4 <= at && at + 4 + |data| <= |now| && |data| + 4 < 0x8000
    requires forall k :: 0 <= k < at ==> now[k] == was[k]
    requires now[at] == (|data| + 4) / 256 && now[at + 1] == (|data| + 4) % 256 && now[at + 2] == 0 && now[at + 3] == 0
    requires forall k :: 0 <= k < |data| ==> now[at + 4 + k] == data[k]
    ensures now[..4] == was[..4] && now[4..at + 4 + |data|] == was[4..at] + Frame(false, data)
  {
    DescriptorBytes(|data| + 4);
    hide Descriptor;
    assert now[4..at] == was[4..at];
    assert now[at..at + 4] == [now[at], now[at + 1], now[at + 2], now[at + 3]];
    assert now[at + 4..at + 4 + |data|] == data;
    assert now[4..at + 4 + |data|] == now[4..at] + now[at..at + 4] + now[at + 4..at + 4 + |data|];
    assert was[4..at] + Descriptor(|data| + 4) + data == was[4..at] + (Descriptor(|data| + 4) + data);
  }

  /** The control block: buffer, fill state, the DCB fields in use, and the volume behind it. */
  class IoCtrl {
    const recfm: Recfm
    const lrecl: nat
    const buffer: array<Byte>
    var dcbBlksize: nat
    var freeLocation: nat
    var bytesInBuffer: nat
    var linesWritten: nat
    var volume: seq<Bytes>

    ghost const attrs: Attrs

    /** Buffer as obtained, cursor at the fill mark, descriptor bytes reserved once a block is begun. */
    ghost predicate Valid()
      reads this, buffer
    {
      && attrs.Valid() && attrs == Attrs(recfm, lrecl, dcbBlksize)
      && buffer.Length == dcbBlksize && freeLocation == bytesInBuffer <= buffer.Length
      && (!recfm.Fixed? && bytesInBuffer > 0 ==> 4 <= bytesInBuffer && buffer[2] == 0 && buffer[3] == 0)
      && InBounds(attrs, Volume(volume, Pending()))
    }

    /** The record frames in the buffer. */
    ghost function Pending(): Bytes
      reads this, buffer
    {
      if bytesInBuffer > buffer.Length then []
      else if recfm.Fixed? then buffer[..bytesInBuffer]
      else if bytesInBuffer < 4 then []
      else buffer[4..bytesInBuffer]
    }

    ghost function State(): Volume
      reads this, buffer
    {
      Volume(volume, Pending())
    }

    /** The buffer is obtained at the validated block size. */
    constructor (a: Attrs)
      requires a.Valid()
      ensures Valid() && attrs == a && State() == Volume([], []) && linesWritten == 0
      ensures fresh(buffer)
    {
      recfm, lrecl, attrs := a.recfm, a.lrecl, a;
      buffer := new Byte[a.blksize];
      dcbBlksize, freeLocation, bytesInBuffer, linesWritten := a.blksize, 0, 0, 0;
      volume := [];
      new;
      EmptyInBounds(a);
    }

    /** Writes as many bytes of the buffer as the DCB block size says. */
    method WriteSync(answer: Answer) returns (abend: bool)
      requires dcbBlksize <= buffer.Length
      modifies this`volume
      ensures abend == answer.Abend?
      ensures volume == if abend then old(volume) else old(volume) + [buffer[..dcbBlksize]]
    {
      if answer.Taken? {
        volume := volume + [buffer[..dcbBlksize]];
      }
      abend := answer.Abend?;
    }

    /** `memset` then `memcpy` at the fill mark. */
    method StoreFixed(data: Bytes)
      requires |data| <= lrecl && freeLocation + lrecl <= buffer.Length
      modifies buffer
      ensures buffer[..] == old(buffer[..freeLocation]) + data + seq(lrecl - |data|, _ => BLANK)
                          + old(buffer[freeLocation + lrecl..])
    {
      forall k | freeLocation <= k < freeLocation + lrecl { buffer[k] := BLANK; }
      forall k | 0 <= k < |data| { buffer[freeLocation + k] := data[k]; }
    }

    method HandleFixed(data: Bytes, answer: Answer) returns (rc: int)
      requires Valid() && recfm.Fixed? && |data| <= lrecl
      modifies this, buffer
      ensures rc == RTNCD_SUCCESS ==> Valid() && State() == Put(attrs, old(State()), data)
      ensures rc == RTNCD_SUCCESS || (rc == RTNCD_FAILURE && answer.Abend?)
      ensures linesWritten == old(linesWritten) + 1
    {
      NextMultiple(lrecl, bytesInBuffer, dcbBlksize);
      PutInBounds(attrs, State(), data);
      ghost var filled := Pending() + attrs.RecordOf(data);
      StoreFixed(data);
      linesWritten := linesWritten + 1;
      bytesInBuffer := bytesInBuffer + lrecl;
      freeLocation := freeLocation + lrecl;
      assert buffer[..bytesInBuffer] == filled;
      if bytesInBuffer >= dcbBlksize {
        var abend := WriteSync(answer);
        if abend { return RTNCD_FAILURE; }
        bytesInBuffer := 0;
        freeLocation := 0;
      }
      return RTNCD_SUCCESS;
    }

    /** Starts a block: room for its descriptor word is set aside. */
    method InitBdw()
      requires Valid() && !recfm.Fixed?
      modifies this, buffer
      ensures Valid() && State() == old(State()) && 4 <= bytesInBuffer
      ensures linesWritten == old(linesWritten)
    {
      buffer[2], buffer[3] := 0, 0;
      if bytesInBuffer == 0 {
        freeLocation := freeLocation + 4;
        bytesInBuffer := 4;
      }
    }

    /** Completes the descriptor word and writes exactly the bytes in the buffer. */
    method WriteVariable(answer: Answer) returns (rc: int)
      requires attrs.Valid() && attrs == Attrs(recfm, lrecl, dcbBlksize) && !recfm.Fixed?
      requires buffer.Length == dcbBlksize && 4 <= bytesInBuffer <= buffer.Length
      requires buffer[2] == 0 && buffer[3] == 0
      modifies this, buffer
      ensures rc == RTNCD_SUCCESS ==> Valid() && State() == WriteOut(attrs, old(State())) && bytesInBuffer == 4
      ensures rc == RTNCD_SUCCESS || (rc == RTNCD_FAILURE && answer.Abend?)
      ensures linesWritten == old(linesWritten) && dcbBlksize == old(dcbBlksize)
    {
      EmptyInBounds(attrs);
      ghost var pending := Pending();
      var blocksize := dcbBlksize;
      buffer[0], buffer[1] := bytesInBuffer / 256, bytesInBuffer % 256;
      dcbBlksize := bytesInBuffer;
      assert buffer[..dcbBlksize] == Block(attrs, pending);
      var abend := WriteSync(answer);
      dcbBlksize := blocksize;
      if abend { return RTNCD_FAILURE; }
      freeLocation := 4;
      bytesInBuffer := 4;
      buffer[0], buffer[1] := 0, 0;
      assert Pending() == [];
      return RTNCD_SUCCESS;
    }

    /** Appends one frame at the fill mark. */
    method CopyVariable(data: Bytes)
      requires !recfm.Fixed? && |data| + 4 < 0x8000
      requires 4 <= bytesInBuffer == freeLocation && freeLocation + |data| + 4 <= buffer.Length
      modifies this`linesWritten, this`bytesInBuffer, this`freeLocation, buffer
      ensures linesWritten == old(linesWritten) + 1
      ensures bytesInBuffer == freeLocation == old(bytesInBuffer) + |data| + 4
      ensures buffer[..4] == old(buffer[..4]) && Pending() == old(Pending()) + Frame(false, data)
    {
      linesWritten := linesWritten + 1;
      ghost var at, was := freeLocation, buffer[..];
      buffer[freeLocation + 2], buffer[freeLocation + 3] := 0, 0;
      forall k | 0 <= k < |data| { buffer[freeLocation + 4 + k] := data[k]; }
      buffer[freeLocation], buffer[freeLocation + 1] := (|data| + 4) / 256, (|data| + 4) % 256;
      bytesInBuffer := bytesInBuffer + |data| + 4;
      freeLocation := freeLocation + |data| + 4;
      FrameLaid(was, buffer[..], at, data);
      assert buffer[..][4..bytesInBuffer] == buffer[4..bytesInBuffer] && was[4..at] == old(buffer[4..at]);
    }

    method HandleVariable(data: Bytes, answer: Answer) returns (rc: int)
      requires Valid() && !recfm.Fixed? && |data| <= lrecl - 4
      modifies this, buffer
      ensures rc == RTNCD_SUCCESS ==> Valid() && State() == Put(attrs, old(State()), data)
      ensures rc == RTNCD_SUCCESS || (rc == RTNCD_FAILURE && answer.Abend?)
    {
      ghost var before := State();
      InitBdw();
      if recfm.Variable? {
        CopyVariable(data);
        rc := WriteVariable(answer);
      } else {
        if |data| + 4 >= dcbBlksize - bytesInBuffer {
          rc := WriteVariable(answer);
          if rc != RTNCD_SUCCESS { return rc; }
        }
        if |data| + 4 < dcbBlksize - bytesInBuffer {
          CopyVariable(data);
        }
        rc := RTNCD_SUCCESS;
      }
    }

    /** One record: cut to LRECL, then the path of its format. */
    method WriteRecord(data: Bytes, answer: Answer) returns (rc: int)
      requires Valid()
      modifies this, buffer
      ensures rc == RTNCD_SUCCESS ==> Valid() && State() == Put(attrs, old(State()), data)
      ensures rc == RTNCD_SUCCESS || (rc == RTNCD_FAILURE && answer.Abend?)
    {
      var length := |data|;
      if !recfm.Fixed? {
        if length > lrecl - 4 { length := lrecl - 4; }
        assert attrs.RecordOf(data) == attrs.RecordOf(data[..length]);
        rc := HandleVariable(data[..length], answer);
      } else {
        if length > lrecl { length := lrecl; }
        assert attrs.RecordOf(data) == attrs.RecordOf(data[..length]);
        rc := HandleFixed(data[..length], answer);
      }
    }

    /** The flush of the close path. */
    method WriteFlush(answer: Answer) returns (rc: int)
      requires Valid()
      modifies this, buffer
      ensures rc == RTNCD_SUCCESS ==> Valid() && State() == Flush(attrs, old(State()))
      ensures rc == RTNCD_SUCCESS || (rc == RTNCD_FAILURE && answer.Abend?)
    {
      EmptyInBounds(attrs);
      var blocksize := dcbBlksize;
      ghost var pending := Pending();
      if bytesInBuffer > 0 {
        if !recfm.Fixed? {
          if bytesInBuffer <= 4 { return RTNCD_SUCCESS; }
          buffer[0], buffer[1] := bytesInBuffer / 256, bytesInBuffer % 256;
        }
        dcbBlksize := bytesInBuffer;
        assert buffer[..dcbBlksize] == Block(attrs, pending);
        var abend := WriteSync(answer);
        dcbBlksize := blocksize;
        if abend { return RTNCD_FAILURE; }
        bytesInBuffer := 0;
        freeLocation := 0;
      }
      return RTNCD_SUCCESS;
    }
  }

  /** A whole member: every line, then the flush; on success the volume can be read back. */
  method WriteMember(a: Attrs, lines: seq<Bytes>, answers: seq<Answer>) returns (rc: int, blocks: seq<Bytes>)
    requires a.Valid() && |answers| == |lines| + 1
    ensures rc == RTNCD_SUCCESS ==> blocks == Flush(a, WriteAll(a, lines)).blocks
    ensures rc == RTNCD_SUCCESS ==> Deblock(a, blocks) == Some(Kept(a, lines))
    ensures rc != RTNCD_SUCCESS ==> Abend in answers
  {
    DeblockUndoesBlocking(a, lines);
    var ioc := new IoCtrl(a);
    for k := 0 to |lines|
      invariant ioc.Valid() && ioc.attrs == a && fresh(ioc) && fresh(ioc.buffer)
      invariant ioc.State() == WriteAll(a, lines[..k])
    {
      rc := ioc.WriteRecord(lines[k], answers[k]);
      if rc != RTNCD_SUCCESS {
        assert answers[k] in answers;
        return rc, ioc.volume;
      }
      assert lines[..k + 1][..k] == lines[..k];
    }
    assert lines[..|lines|] == lines;
    rc := ioc.WriteFlush(answers[|lines|]);
    if rc != RTNCD_SUCCESS { assert answers[|lines|] in answers; }
    blocks := ioc.volume;
  }
}
