/**
 * Work done block by block on a byte stream: a per-block function over blocks of a fixed
 * size, and the leftover bytes that do not fill a block.
 */
module Blockwise {
  import opened Native

  type BlockFn = Bytes -> Option<Bytes>

  /** All full blocks of `s` in order; one bad block rejects the whole. */
  function Run(f: BlockFn, size: nat, s: Bytes): Option<Bytes>
    requires size > 0
    decreases |s|
  {
    if |s| < size then Some([]) else Joined(f(s[..size]), Run(f, size, s[size..]))
  }

  function Joined(x: Option<Bytes>, y: Option<Bytes>): Option<Bytes> {
    if x == None || y == None then None else Some(x.value + y.value)
  }

  /** The bytes after the last full block. */
  function Rest(size: nat, s: Bytes): (rest: Bytes)
    requires size > 0
    ensures |rest| < size && |rest| <= |s|
    decreases |s|
  {
    if |s| < size then s else Rest(size, s[size..])
  }

  /** The bytes before the leftover. */
  function Full(size: nat, s: Bytes): (full: Bytes)
    requires size > 0
  {
    s[..|s| - |Rest(size, s)|]
  }

  lemma {:induction false} FullAndRest(size: nat, s: Bytes)
    requires size > 0
    ensures Full(size, s) + Rest(size, s) == s
    decreases |s|
  {
    if |s| >= size {
      FullAndRest(size, s[size..]);
      assert Full(size, s) == s[..size] + Full(size, s[size..]);
    }
  }

  /** Stopping at `a` and going on later with the leftover in front changes nothing. */
  lemma {:induction false} Resume(f: BlockFn, size: nat, a: Bytes, b: Bytes)
    requires size > 0
    ensures Run(f, size, a + b) == Joined(Run(f, size, a), Run(f, size, Rest(size, a) + b))
    ensures Rest(size, a + b) == Rest(size, Rest(size, a) + b)
    decreases |a|
  {
    if |a| >= size {
      assert (a + b)[..size] == a[..size] && (a + b)[size..] == a[size..] + b;
      Resume(f, size, a[size..], b);
      Associative(f(a[..size]), Run(f, size, a[size..]), Run(f, size, Rest(size, a) + b));
    } else {
      JoinedUnit(Run(f, size, a + b));
    }
  }

  lemma {:induction false} Associative(x: Option<Bytes>, y: Option<Bytes>, z: Option<Bytes>)
    ensures Joined(Joined(x, y), z) == Joined(x, Joined(y, z))
  {
    if x != None && y != None && z != None {
      assert (x.value + y.value) + z.value == x.value + (y.value + z.value);
    }
  }

  lemma {:induction false} JoinedUnit(x: Option<Bytes>)
    ensures Joined(Some([]), x) == x && Joined(x, Some([])) == x
  {
    if x != None { assert [] + x.value == x.value && x.value + [] == x.value; }
  }

  /** The leftover itself contributes nothing. */
  lemma {:induction false} RunOfFull(f: BlockFn, size: nat, s: Bytes)
    requires size > 0
    ensures Run(f, size, Full(size, s)) == Run(f, size, s)
    ensures Rest(size, Full(size, s)) == []
    decreases |s|
  {
    if |s| >= size {
      var full := Full(size, s);
      assert full[..size] == s[..size] && full[size..] == Full(size, s[size..]);
      RunOfFull(f, size, s[size..]);
    }
  }

  /** Full blocks already done can be followed by anything. */
  lemma {:induction false} Continue(f: BlockFn, size: nat, a: Bytes, b: Bytes)
    requires size > 0 && Rest(size, a) == []
    ensures Run(f, size, a + b) == Joined(Run(f, size, a), Run(f, size, b))
    ensures Rest(size, a + b) == Rest(size, b)
  {
    Resume(f, size, a, b);
    assert [] + b == b;
  }

  lemma {:induction false} OneBlock(f: BlockFn, size: nat, s: Bytes)
    requires size > 0 && |s| == size
    ensures Run(f, size, s) == f(s) && Rest(size, s) == []
  {
    assert s[..size] == s && s[size..] == [];
    JoinedUnit(f(s));
  }

  /** One more full block at the end. */
  lemma {:induction false} NextBlock(f: BlockFn, size: nat, done: Bytes, block: Bytes)
    requires size > 0 && |block| == size && Rest(size, done) == []
    ensures Run(f, size, done + block) == Joined(Run(f, size, done), f(block))
    ensures Rest(size, done + block) == []
  {
    Continue(f, size, done, block);
    OneBlock(f, size, block);
  }

  /** The leftover is what the remainder operator says, for the two block sizes in use. */
  lemma {:induction false} RestOfThrees(s: Bytes)
    ensures |Rest(3, s)| == |s| % 3
    decreases |s|
  {
    if |s| >= 3 { RestOfThrees(s[3..]); }
  }

  lemma {:induction false} RestOfFours(s: Bytes)
    ensures |Rest(4, s)| == |s| % 4
    decreases |s|
  {
    if |s| >= 4 { RestOfFours(s[4..]); }
  }

  /** A rejected prefix rejects every continuation. */
  lemma {:induction false} RejectedPrefix(f: BlockFn, size: nat, a: Bytes, b: Bytes)
    requires size > 0 && Run(f, size, a) == None
    ensures Run(f, size, a + b) == None
  {
    Resume(f, size, a, b);
  }
}

/**
 * Base64 (section 4 of RFC 4648) as the native code does it: an unrolled encoder,
 * a decoder over EBCDIC text, and the chunked forms that carry leftover bytes.
 */
module Base64 {
  import opened Native
  import opened Blockwise

  type Sextet = n: int | 0 <= n < 64

  const PAD: Byte := 126
  const INVALID: Byte := 255
  const PAD_MARK: Byte := 254

  /** The RFC alphabet `A..Z a..z 0..9 + /` in its IBM-1047 codes. */
  function Alphabet(n: Sextet): Byte {
    if n < 9 then 193 + n
    else if n < 18 then 209 + (n - 9)
    else if n < 26 then 226 + (n - 18)
    else if n < 35 then 129 + (n - 26)
    else if n < 44 then 145 + (n - 35)
    else if n < 52 then 162 + (n - 44)
    else if n < 62 then 240 + (n - 52)
    else if n == 62 then 78
    else 97
  }

  // ------------------------------------------------------------ decode table

  ghost predicate IsDecodeTable(table: seq<Byte>) {
    |table| == 256 && forall c: Byte :: table[c] == Entry(c)
  }

  /** Filled range by range; later ranges do not meet earlier ones. */
  method BuildDecodeTable() returns (entries: seq<Byte>)
    ensures IsDecodeTable(entries)
  {
    var table := new Byte[256];
    for i := 0 to 256
      invariant forall c :: 0 <= c < i ==> table[c] == INVALID
    {
      table[i] := INVALID;
    }
    Fill(table, 193, 0, 9);
    Fill(table, 209, 9, 9);
    Fill(table, 226, 18, 8);
    Fill(table, 129, 26, 9);
    Fill(table, 145, 35, 9);
    Fill(table, 162, 44, 8);
    Fill(table, 240, 52, 10);
    table[78] := 62;
    table[97] := 63;
    table[126] := PAD_MARK;
    entries := table[..];
  }

  /** One initialisation loop: `count` entries from code `at` hold the sextets from `first` on. */
  method Fill(table: array<Byte>, at: nat, first: nat, count: nat)
    requires table.Length == 256 && at + count <= 256 && first + count <= 64
    modifies table
    ensures forall c: Byte :: table[c] == if at <= c < at + count then first + (c - at) else old(table[c])
  {
    for i := 0 to count
      invariant forall c: Byte :: table[c] == if at <= c < at + i then first + (c - at) else old(table[c])
    {
      table[at + i] := first + i;
    }
  }

  /** A decode-table entry: the sextet of an alphabet character, else one of two high markers. */
  function Entry(c: Byte): (e: Byte)
    ensures e < 64 ==> Alphabet(e) == c
    ensures e >= 64 ==> e == INVALID || (e == PAD_MARK && c == PAD)
  {
    if 193 <= c < 202 then c - 193
    else if 209 <= c < 218 then 9 + (c - 209)
    else if 226 <= c < 234 then 18 + (c - 226)
    else if 129 <= c < 138 then 26 + (c - 129)
    else if 145 <= c < 154 then 35 + (c - 145)
    else if 162 <= c < 170 then 44 + (c - 162)
    else if 240 <= c < 250 then 52 + (c - 240)
    else if c == 78 then 62
    else if c == 97 then 63
    else if c == PAD then PAD_MARK
    else INVALID
  }

  /** The high bit tells the markers from the sextets. */
  lemma {:induction false} MarkersAreHigh(c: Byte)
    ensures Entry(c) < 64 || Entry(c) >= 128
  {
  }

  lemma {:induction false} EntryUndoesAlphabet(n: Sextet)
    ensures Entry(Alphabet(n)) == n && Alphabet(n) != PAD
  {
  }

  // ---------------------------------------------------------------- meaning

  /** Four 6-bit groups. */
  datatype Quad = Quad(c0: Sextet, c1: Sextet, c2: Sextet, c3: Sextet) {
    /** The 24 bits they make when concatenated. */
    function Combined(): nat {
      Sum24(c0, c1, c2, c3)
    }
  }

  function Sum24(c0: nat, c1: nat, c2: nat, c3: nat): nat {
    c0 * 262144 + c1 * 4096 + c2 * 64 + c3
  }

  /** The 24 bits of three concatenated bytes. */
  function Combine(b0: Byte, b1: Byte, b2: Byte): nat {
    b0 * 65536 + b1 * 256 + b2
  }

  /** Three bytes read as four 6-bit groups. */
  function Group(b0: Byte, b1: Byte, b2: Byte): (q: Quad)
    ensures q.Combined() == Combine(b0, b1, b2)
  {
    Quad(b0 / 4, b0 % 4 * 16 + b1 / 16, b1 % 16 * 4 + b2 / 64, b2 % 64)
  }

  /** The code's shifts and masks of the 24 bits select exactly these groups. */
  lemma {:induction false} ShiftsSelectGroups(b0: Byte, b1: Byte, b2: Byte)
    ensures
      var combined, q := Combine(b0, b1, b2), Group(b0, b1, b2);
      && combined / 262144 % 64 == q.c0
      && combined / 4096 % 64 == q.c1
      && combined / 64 % 64 == q.c2
      && combined % 64 == q.c3
  {
    ShiftsOfQuad(Group(b0, b1, b2));
  }

  lemma {:induction false} ShiftsOfQuad(q: Quad)
    ensures q.Combined() / 262144 % 64 == q.c0
    ensures q.Combined() / 4096 % 64 == q.c1
    ensures q.Combined() / 64 % 64 == q.c2
    ensures q.Combined() % 64 == q.c3
  {
    var x := q.Combined();
    var low := q.c2 * 64 + q.c3;
    assert x / 64 == q.c0 * 4096 + q.c1 * 64 + q.c2;
    assert x / 4096 == q.c0 * 64 + q.c1;
    assert x / 262144 == q.c0;
  }

  /** Going back from 24 bits to the bytes. */
  lemma {:induction false} BytesOfCombined(b0: Byte, b1: Byte, b2: Byte)
    ensures var x := Combine(b0, b1, b2); x / 65536 % 256 == b0 && x / 256 % 256 == b1 && x % 256 == b2
  {
    var x := Combine(b0, b1, b2);
    assert x / 256 == b0 * 256 + b1;
    assert x / 65536 == b0;
  }

  function Letters(q: Quad): Bytes {
    [Alphabet(q.c0), Alphabet(q.c1), Alphabet(q.c2), Alphabet(q.c3)]
  }

  /** One full group of the encoder. */
  function EncodeBlock(b: Bytes): Option<Bytes> {
    if |b| == 3 then Some(Letters(Group(b[0], b[1], b[2]))) else None
  }

  /** The padded quad of the last one or two bytes. */
  function EncodeTail(rest: Bytes): (out: Bytes)
    requires |rest| < 3
  {
    if |rest| == 0 then []
    else if |rest| == 1 then Letters(Group(rest[0], 0, 0))[..2] + [PAD, PAD]
    else Letters(Group(rest[0], rest[1], 0))[..3] + [PAD]
  }

  lemma {:induction false} EncodeRuns(bs: Bytes)
    ensures Run(EncodeBlock, 3, bs).Some?
    decreases |bs|
  {
    if |bs| >= 3 { EncodeRuns(bs[3..]); }
  }

  function Encode(bs: Bytes): (out: Bytes) {
    EncodeRuns(bs);
    Run(EncodeBlock, 3, bs).value + EncodeTail(Rest(3, bs))
  }

  /** One quad: padding is accepted in the last two places, anything outside the alphabet is not. */
  function DecodeBlock(t: Bytes): (out: Option<Bytes>) {
    if |t| != 4 then None else
      var c0, c1 := Entry(t[0]), Entry(t[1]);
      var c2 := if t[2] == PAD then 0 else Entry(t[2]);
      var c3 := if t[3] == PAD then 0 else Entry(t[3]);
      if c0 >= 64 || c1 >= 64 || c2 >= 64 || c3 >= 64 then None
      else Some(Keep(Quad(c0, c1, c2, c3).Combined(), t[2] == PAD, t[3] == PAD))
  }

  /** The bytes of 24 bits that the padding leaves. */
  function Keep(combined: nat, pad2: bool, pad3: bool): Bytes {
    [combined / 65536 % 256] + if pad2 then [] else [combined / 256 % 256] + if pad3 then [] else [combined % 256]
  }

  datatype Decoded = Ok(bytes: Bytes) | BadLength | BadCharacter

  function Decode(t: Bytes): Decoded {
    if |t| % 4 != 0 then BadLength else Outcome(Run(DecodeBlock, 4, t))
  }

  function Outcome(o: Option<Bytes>): Decoded {
    match o
    case Some(bytes) => Ok(bytes)
    case None => BadCharacter
  }

  // ------------------------------------------------------------ computation

  function EncodedSize(inputSize: nat): nat {
    (inputSize + 2) / 3 * 4
  }

  lemma {:induction false} SizeOfBlocks(n: nat)
    ensures 3 * (n / 3) <= n < 3 * (n / 3) + 3
    ensures EncodedSize(n) == if 3 * (n / 3) < n then 4 * (n / 3) + 4 else 4 * (n / 3)
  {
  }

  /** The encoder: four groups at a time, then the remaining groups, then the tail. */
  method EncodeBytes(input: Bytes) returns (out: Bytes)
    ensures out == Encode(input)
  {
    if |input| == 0 { return []; }
    SizeOfBlocks(|input|);
    hide EncodeBlock, Encoded, Encode, EncodedSize;
    var output := new Byte[EncodedSize(|input|)];
    var fullBlocks := |input| / 3;
    var i := PutUnrolled(output, input, fullBlocks);
    PutRemaining(output, input, i, fullBlocks);
    PutTail(output, 4 * fullBlocks, input, 3 * fullBlocks);
    out := output[..];
  }

  /** The loop over the groups the unrolled loop left. */
  method PutRemaining(output: array<Byte>, input: Bytes, from: nat, fullBlocks: nat)
    requires from <= fullBlocks && 3 * fullBlocks <= |input| && 4 * fullBlocks <= output.Length
    requires Encoded(output[..4 * from], input[..3 * from])
    modifies output
    ensures Encoded(output[..4 * fullBlocks], input[..3 * fullBlocks])
  {
    hide EncodeBlock, Encoded;
    var i := from;
    while i < fullBlocks
      invariant from <= i <= fullBlocks
      invariant Encoded(output[..4 * i], input[..3 * i])
    {
      PutGroup(output, 4 * i, input, 3 * i);
      i := i + 1;
    }
  }

  /** The unrolled loop nest: as many blocks of twelve bytes as there are. */
  method PutUnrolled(output: array<Byte>, input: Bytes, fullBlocks: nat) returns (i: nat)
    requires 3 * fullBlocks <= |input| && 4 * fullBlocks <= output.Length
    modifies output
    ensures fullBlocks - 4 < i <= fullBlocks
    ensures Encoded(output[..4 * i], input[..3 * i])
  {
    i := 0;
    var dst := 0;
    assert Encoded([], []);
    hide EncodeBlock, Encoded;
    while i + 4 <= fullBlocks
      invariant 0 <= i <= fullBlocks && dst == 4 * i
      invariant Encoded(output[..dst], input[..3 * i])
    {
      for j := 0 to 4
        invariant dst == 4 * (i + j)
        invariant Encoded(output[..dst], input[..3 * (i + j)])
      {
        PutGroup(output, dst, input, 3 * (i + j));
        dst := dst + 4;
      }
      i := i + 4;
    }
  }

  /** `out` is the encoding of `done`, which is a whole number of groups. */
  ghost predicate Encoded(out: Bytes, done: Bytes) {
    Rest(3, done) == [] && Run(EncodeBlock, 3, done) == Some(out)
  }

  lemma {:induction false} EncodedNext(out: Bytes, input: Bytes, at: nat, quad: Bytes)
    requires at + 3 <= |input| && Encoded(out, input[..at])
    requires quad == Letters(Group(input[at], input[at + 1], input[at + 2]))
    ensures Encoded(out + quad, input[..at + 3])
  {
    hide EncodeBlock, Letters, Group, Run, Rest;
    var block := input[at..at + 3];
    BlockLetters(block);
    NextBlock(EncodeBlock, 3, input[..at], block);
    assert input[..at] + block == input[..at + 3];
  }

  lemma {:induction false} BlockLetters(block: Bytes)
    requires |block| == 3
    ensures EncodeBlock(block) == Some(Letters(Group(block[0], block[1], block[2])))
  {
  }

  method PutGroup(output: array<Byte>, dst: nat, input: Bytes, at: nat)
    requires at + 3 <= |input| && dst + 4 <= output.Length
    requires Encoded(output[..dst], input[..at])
    modifies output
    ensures Encoded(output[..dst + 4], input[..at + 3])
  {
    ghost var before := output[..dst];
    ShiftsSelectGroups(input[at], input[at + 1], input[at + 2]);
    EncodedNext(before, input, at, Letters(Group(input[at], input[at + 1], input[at + 2])));
    var combined := Combine(input[at], input[at + 1], input[at + 2]);
    output[dst] := Alphabet(combined / 262144 % 64);
    output[dst + 1] := Alphabet(combined / 4096 % 64);
    output[dst + 2] := Alphabet(combined / 64 % 64);
    output[dst + 3] := Alphabet(combined % 64);
    assert output[..dst + 4] == before + [output[dst], output[dst + 1], output[dst + 2], output[dst + 3]];
  }

  /** The remaining one or two bytes, if any. */
  method PutTail(output: array<Byte>, dst: nat, input: Bytes, at: nat)
    requires at <= |input| < at + 3 && output.Length == if at < |input| then dst + 4 else dst
    requires Encoded(output[..dst], input[..at])
    modifies output
    ensures output[..] == Encode(input)
  {
    ghost var before := output[..dst];
    EncodedEnd(before, input, at);
    hide Encode, Encoded, EncodeTail;
    if at < |input| {
      var quad := TailQuad(input[at..]);
      output[dst], output[dst + 1], output[dst + 2], output[dst + 3] := quad[0], quad[1], quad[2], quad[3];
      assert output[..] == before + quad;
    } else {
      assert output[..] == before;
      EmptyTail(input[at..]);
    }
  }

  lemma {:induction false} EmptyTail(rest: Bytes)
    ensures rest == [] ==> EncodeTail(rest) == []
  {
  }

  method TailQuad(rest: Bytes) returns (quad: Bytes)
    requires 0 < |rest| < 3
    ensures |quad| == 4 && quad == EncodeTail(rest)
  {
    var remaining := |rest|;
    var b1: Byte := 0;
    if remaining > 1 { b1 := rest[1]; }
    ShiftsSelectGroups(rest[0], b1, 0);
    hide Alphabet, Group, Combine;
    var combined := Combine(rest[0], b1, 0);
    quad := [Alphabet(combined / 262144 % 64), Alphabet(combined / 4096 % 64),
             if remaining > 1 then Alphabet(combined / 64 % 64) else PAD, PAD];
  }

  lemma {:induction false} EncodedEnd(out: Bytes, input: Bytes, at: nat)
    requires at <= |input| < at + 3 && Encoded(out, input[..at])
    ensures Encode(input) == out + EncodeTail(input[at..])
  {
    assert input == input[..at] + input[at..];
    Continue(EncodeBlock, 3, input[..at], input[at..]);
    JoinedUnit(Some(out));
  }

  /** `out` is the decoding of `done`, which is a whole number of quads. */
  ghost predicate DecodedTo(out: Bytes, done: Bytes) {
    Rest(4, done) == [] && Run(DecodeBlock, 4, done) == Some(out)
  }

  lemma {:induction false} DecodedNext(out: Bytes, input: Bytes, at: nat, more: Option<Bytes>)
    requires at + 4 <= |input| && DecodedTo(out, input[..at])
    requires more == DecodeBlock(input[at..at + 4])
    ensures more.Some? ==> DecodedTo(out + more.value, input[..at + 4])
    ensures more.None? ==> Run(DecodeBlock, 4, input) == None
  {
    hide DecodeBlock;
    var done, quad, after := input[..at], input[at..at + 4], input[at + 4..];
    NextBlock(DecodeBlock, 4, done, quad);
    assert done + quad == input[..at + 4];
    RejectedIf(DecodeBlock, 4, done + quad, after);
    assert done + quad + after == input;
  }

  lemma {:induction false} RejectedIf(f: BlockFn, size: nat, a: Bytes, b: Bytes)
    requires size > 0
    ensures Run(f, size, a) == None ==> Run(f, size, a + b) == None
  {
    if Run(f, size, a) == None { RejectedPrefix(f, size, a, b); }
  }

  lemma {:induction false} DecodedEnd(out: Bytes, input: Bytes)
    requires |input| % 4 == 0
    ensures DecodedTo(out, input) ==> Decode(input) == Ok(out)
    ensures Run(DecodeBlock, 4, input) == None ==> Decode(input) == BadCharacter
    ensures DecodedTo([], [])
  {
  }

  /** The decoder's loop: four characters at a time, stopping at the first bad quad. */
  method DecodeBytes(input: Bytes) returns (r: Decoded)
    ensures r == Decode(input)
  {
    hide DecodeBlock, IsDecodeTable, DecodedTo, Decode, Run;
    DecodeLengths(input);
    if |input| == 0 { return Ok([]); }
    if |input| % 4 != 0 { return BadLength; }
    ghost var quads := |input| / 4;
    assert |input| == 4 * quads;
    ghost var n := 0;
    var table := BuildDecodeTable();
    var output: Bytes := [];
    var src := 0;
    DecodedEnd(output, input);
    while src + 4 <= |input|
      invariant 0 <= n <= quads && src == 4 * n
      invariant DecodedTo(output, input[..src])
    {
      var more := DecodeOne(table, input[src..src + 4]);
      DecodedNext(output, input, src, more);
      if more == None { return BadCharacter; }
      output := output + more.value;
      src := src + 4;
      n := n + 1;
    }
    assert input[..src] == input;
    DecodedEnd(output, input);
    return Ok(output);
  }

  lemma {:induction false} DecodeLengths(input: Bytes)
    ensures Decode([]) == Ok([])
    ensures |input| % 4 != 0 ==> Decode(input) == BadLength
  {
  }

  /** The body of the decode loop, on the table it looks its characters up in. */
  method DecodeOne(table: seq<Byte>, t: Bytes) returns (out: Option<Bytes>)
    requires IsDecodeTable(table) && |t| == 4
    ensures out == DecodeBlock(t)
  {
    forall c: Byte ensures Entry(c) < 64 || Entry(c) >= 128 { MarkersAreHigh(c); }
    hide Entry, Sum24;
    var c0, c1 := table[t[0]], table[t[1]];
    var c2 := if t[2] == PAD then 0 else table[t[2]];
    var c3 := if t[3] == PAD then 0 else table[t[3]];
    if c0 >= 128 || c1 >= 128 { return None; }
    if t[2] != PAD && c2 >= 128 { return None; }
    if t[3] != PAD && c3 >= 128 { return None; }
    var combined := Sum24(c0, c1, c2, c3);
    var bytes := [combined / 65536 % 256];
    if t[2] != PAD {
      bytes := bytes + [combined / 256 % 256];
      if t[3] != PAD {
        bytes := bytes + [combined % 256];
      }
    }
    assert bytes == Keep(combined, t[2] == PAD, t[3] == PAD);
    assert combined == Quad(c0, c1, c2, c3).Combined();
    out := Some(bytes);
  }

  // -------------------------------------------------------------- round trip

  lemma {:induction false} LettersDecode(q: Quad)
    ensures var t := Letters(q);
            && DecodeBlock(t) == Some(Keep(q.Combined(), false, false))
            && (q.c3 == 0 ==> DecodeBlock(t[..3] + [PAD]) == Some(Keep(q.Combined(), false, true)))
            && (q.c2 == 0 == q.c3 ==> DecodeBlock(t[..2] + [PAD, PAD]) == Some(Keep(q.Combined(), true, true)))
  {
    EntryUndoesAlphabet(q.c0);
    EntryUndoesAlphabet(q.c1);
    EntryUndoesAlphabet(q.c2);
    EntryUndoesAlphabet(q.c3);
  }

  lemma {:induction false} KeepBytes(b0: Byte, b1: Byte, b2: Byte)
    ensures var x := Combine(b0, b1, b2);
            Keep(x, false, false) == [b0, b1, b2] && Keep(x, false, true) == [b0, b1] && Keep(x, true, true) == [b0]
  {
    BytesOfCombined(b0, b1, b2);
  }

  lemma {:induction false} GroupRoundTrip(b0: Byte, b1: Byte, b2: Byte, q: Quad)
    requires q.Combined() == Combine(b0, b1, b2)
    ensures DecodeBlock(Letters(q)) == Some([b0, b1, b2])
    ensures q.c3 == 0 ==> DecodeBlock(Letters(q)[..3] + [PAD]) == Some([b0, b1])
    ensures q.c2 == 0 == q.c3 ==> DecodeBlock(Letters(q)[..2] + [PAD, PAD]) == Some([b0])
  {
    LettersDecode(q);
    KeepBytes(b0, b1, b2);
  }

  lemma {:induction false} TailRoundTrip(rest: Bytes)
    requires 0 < |rest| < 3
    ensures |EncodeTail(rest)| == 4 && DecodeBlock(EncodeTail(rest)) == Some(rest)
  {
    hide DecodeBlock, Alphabet;
    var b1 := if |rest| == 1 then 0 else rest[1];
    GroupRoundTrip(rest[0], b1, 0, Group(rest[0], b1, 0));
    assert rest == if |rest| == 1 then [rest[0]] else [rest[0], rest[1]];
  }

  lemma {:induction false} BlocksRoundTrip(bs: Bytes)
    ensures Run(EncodeBlock, 3, bs).Some?
    ensures Run(DecodeBlock, 4, Run(EncodeBlock, 3, bs).value) == Some(Full(3, bs))
    ensures Rest(4, Run(EncodeBlock, 3, bs).value) == []
    decreases |bs|
  {
    if |bs| >= 3 {
      BlocksRoundTrip(bs[3..]);
      var block := Letters(Group(bs[0], bs[1], bs[2]));
      var more := Run(EncodeBlock, 3, bs[3..]).value;
      GroupRoundTrip(bs[0], bs[1], bs[2], Group(bs[0], bs[1], bs[2]));
      PrependBlock(DecodeBlock, 4, block, more);
      assert EncodeBlock(bs[..3]) == Some(block);
      assert Full(3, bs) == [bs[0], bs[1], bs[2]] + Full(3, bs[3..]);
    }
  }

  lemma {:induction false} PrependBlock(f: BlockFn, size: nat, block: Bytes, more: Bytes)
    requires size > 0 && |block| == size
    ensures Run(f, size, block + more) == Joined(f(block), Run(f, size, more))
    ensures Rest(size, block + more) == Rest(size, more)
  {
    assert (block + more)[..size] == block && (block + more)[size..] == more;
  }

  /** Decoding the encoder's output gives back every byte string. */
  lemma {:induction false} DecodeUndoesEncode(bs: Bytes)
    ensures Decode(Encode(bs)) == Ok(bs)
  {
    BlocksRoundTrip(bs);
    var blocks, rest := Run(EncodeBlock, 3, bs).value, Rest(3, bs);
    var tail := EncodeTail(rest);
    Continue(DecodeBlock, 4, blocks, tail);
    FullAndRest(3, bs);
    if rest != [] {
      TailRoundTrip(rest);
      OneBlock(DecodeBlock, 4, tail);
    }
    RestOfFours(blocks + tail);
  }

  // --------------------------------------------------------------- streaming

  /** The carried bytes, which the caller passes to every call of a stream. */
  class LeftOver {
    var bytes: Bytes

    constructor ()
      ensures bytes == []
    {
      bytes := [];
    }

    method Load(input: Bytes) returns (combined: Bytes)
      modifies this
      ensures combined == old(bytes) + input && bytes == []
    {
      combined := bytes + input;
      bytes := [];
    }

    /** Keeps the bytes past the last whole multiple, and says how many come before them. */
    method Store(combined: Bytes, multiple: nat) returns (size: nat)
      requires (multiple == 3 || multiple == 4) && bytes == []
      modifies this
      ensures size <= |combined| && combined[..size] == Full(multiple, combined)
      ensures bytes == Rest(multiple, combined)
    {
      RestOfThrees(combined);
      RestOfFours(combined);
      FullAndRest(multiple, combined);
      var extra := |combined| % multiple;
      size := |combined| - extra;
      if extra > 0 {
        bytes := combined[size..];
      }
      assert combined == combined[..size] + combined[size..];
    }

    method EncodeChunk(input: Bytes) returns (out: Bytes)
      modifies this
      ensures out == Encode(Full(3, old(bytes) + input))
      ensures bytes == Rest(3, old(bytes) + input)
    {
      var combined := input;
      if bytes != [] {
        combined := Load(input);
      } else if |input| == 0 {
        return [];
      }
      assert combined == old(bytes) + input;
      var size := Store(combined, 3);
      out := EncodeBytes(combined[..size]);
    }

    method DecodeChunk(input: Bytes) returns (r: Decoded)
      modifies this
      ensures r == Outcome(Run(DecodeBlock, 4, old(bytes) + input))
      ensures bytes == Rest(4, old(bytes) + input)
    {
      var combined := input;
      if bytes != [] {
        combined := Load(input);
      } else if |input| == 0 {
        return Ok([]);
      }
      assert combined == old(bytes) + input;
      var size := Store(combined, 4);
      r := DecodeBytes(combined[..size]);
      RunOfFull(DecodeBlock, 4, combined);
      RestOfFours(combined[..size]);
    }
  }

  /** Encoding chunk by chunk and then the final leftover is encoding everything at once. */
  method EncodeStream(chunks: seq<Bytes>) returns (out: Bytes)
    ensures out == Encode(Concat(chunks))
  {
    var left := new LeftOver();
    out := [];
    for k := 0 to |chunks|
      invariant left.bytes == Rest(3, Concat(chunks[..k]))
      invariant Run(EncodeBlock, 3, Concat(chunks[..k])) == Some(out)
    {
      ghost var before, carry := Concat(chunks[..k]), left.bytes;
      var more := left.EncodeChunk(chunks[k]);
      Resume(EncodeBlock, 3, before, chunks[k]);
      EncodeOfFull(carry + chunks[k]);
      ConcatNext(chunks, k);
      out := out + more;
    }
    assert chunks[..|chunks|] == chunks;
    EncodeOfRest(left.bytes);
    var last := EncodeBytes(left.bytes);
    out := out + last;
  }

  lemma {:induction false} EncodeOfFull(s: Bytes)
    ensures Run(EncodeBlock, 3, s) == Some(Encode(Full(3, s)))
  {
    EncodeRuns(s);
    RunOfFull(EncodeBlock, 3, s);
    JoinedUnit(Run(EncodeBlock, 3, s));
  }

  lemma {:induction false} EncodeOfRest(s: Bytes)
    requires |s| < 3
    ensures Encode(s) == EncodeTail(s)
  {
  }

  /**
   * Decoding chunk by chunk is decoding everything at once: the same bytes, or the same
   * rejection. Only a stray length at the very end goes unnoticed, and its bytes stay behind.
   */
  method DecodeStream(chunks: seq<Bytes>) returns (r: Decoded, left: Bytes)
    ensures r == Outcome(Run(DecodeBlock, 4, Concat(chunks)))
    ensures r.Ok? ==> left == Rest(4, Concat(chunks))
    ensures |Concat(chunks)| % 4 == 0 ==> r == Decode(Concat(chunks))
  {
    var carry := new LeftOver();
    var out: Bytes := [];
    for k := 0 to |chunks|
      invariant carry.bytes == Rest(4, Concat(chunks[..k]))
      invariant Run(DecodeBlock, 4, Concat(chunks[..k])) == Some(out)
    {
      ghost var before := Concat(chunks[..k]);
      var d := carry.DecodeChunk(chunks[k]);
      Resume(DecodeBlock, 4, before, chunks[k]);
      ConcatNext(chunks, k);
      if !d.Ok? {
        RejectedChunks(chunks, k + 1);
        return d, carry.bytes;
      }
      out := out + d.bytes;
    }
    assert chunks[..|chunks|] == chunks;
    return Ok(out), carry.bytes;
  }

  lemma {:induction false} RejectedChunks(chunks: seq<Bytes>, k: nat)
    requires k <= |chunks| && Run(DecodeBlock, 4, Concat(chunks[..k])) == None
    ensures Run(DecodeBlock, 4, Concat(chunks)) == None
    decreases |chunks| - k
  {
    if k == |chunks| {
      assert chunks[..k] == chunks;
    } else {
      ConcatNext(chunks, k);
      RejectedPrefix(DecodeBlock, 4, Concat(chunks[..k]), chunks[k]);
      RejectedChunks(chunks, k + 1);
    }
  }

  // ------------------------------------------------------------ what is accepted

  ghost predicate InAlphabet(c: Byte) {
    exists n: Sextet :: Alphabet(n) == c
  }

  lemma {:induction false} EntryKnowsAlphabet(c: Byte)
    ensures Entry(c) < 64 <==> InAlphabet(c)
  {
    hide Entry, Alphabet;
    if n: Sextet :| Alphabet(n) == c { EntryUndoesAlphabet(n); }
    if Entry(c) < 64 { assert Alphabet(Entry(c)) == c; }
  }

  /** A character of the alphabet, or padding in one of the last two places of its quad. */
  ghost predicate Legal(t: Bytes, k: nat) {
    k < |t| && (InAlphabet(t[k]) || (k % 4 >= 2 && t[k] == PAD))
  }

  lemma {:induction false} QuadAccepts(t: Bytes)
    requires |t| == 4
    ensures DecodeBlock(t).Some? <==> Legal(t, 0) && Legal(t, 1) && Legal(t, 2) && Legal(t, 3)
  {
    hide Entry, InAlphabet;
    EntryKnowsAlphabet(t[0]);
    EntryKnowsAlphabet(t[1]);
    EntryKnowsAlphabet(t[2]);
    EntryKnowsAlphabet(t[3]);
  }

  lemma {:induction false} RunAccepts(t: Bytes)
    requires |t| % 4 == 0
    ensures Run(DecodeBlock, 4, t).Some? <==> forall k: nat :: k < |t| ==> Legal(t, k)
    decreases |t|
  {
    hide DecodeBlock, InAlphabet;
    if t != [] {
      var quad, more := t[..4], t[4..];
      QuadAccepts(quad);
      RunAccepts(more);
      forall k: nat | k < 4 ensures Legal(t, k) <==> Legal(quad, k) {}
      forall k: nat | k < |more| ensures Legal(t, k + 4) <==> Legal(more, k) {}
      if forall k: nat :: k < |t| ==> Legal(t, k) {
        assert Legal(t, 0) && Legal(t, 1) && Legal(t, 2) && Legal(t, 3);
        forall k: nat | k < |more| ensures Legal(more, k) { assert Legal(t, k + 4); }
      } else {
        var k: nat :| k < |t| && !Legal(t, k);
        if k >= 4 { assert !Legal(more, k - 4); } else { assert !Legal(quad, k); }
      }
    }
  }

  /**
   * The decoder accepts exactly the texts of whole quads of alphabet characters, with padding in any
   * quad's last two places; it tells a bad length from a bad character.
   */
  lemma {:induction false} AcceptsExactly(t: Bytes)
    ensures Decode(t) == BadLength <==> |t| % 4 != 0
    ensures Decode(t).Ok? <==> |t| % 4 == 0 && forall k: nat :: k < |t| ==> Legal(t, k)
  {
    hide Legal, DecodeBlock, Run;
    if |t| % 4 == 0 { RunAccepts(t); }
  }
}
