/**
 * Writing a member from text: the whole-string path collects its records first, the streamed
 * path decodes base64 chunks and keeps one line back.
 */
module MemberWriter {
  import opened Native
  import Asa
  import Base64
  import Blockwise

  // ------------------------------------------------------------------- lines

  /** Where the newline is, or the length if there is none. */
  function Find(nl: Byte, s: Bytes): (k: nat)
    ensures k <= |s| && (k < |s| ==> s[k] == nl) && forall j :: 0 <= j < k ==> s[j] != nl
  {
    if s == [] || s[0] == nl then 0 else 1 + Find(nl, s[1..])
  }

  /** The newline-terminated lines of a text. */
  function Lines(nl: Byte, s: Bytes): seq<Bytes>
    decreases |s|
  {
    var k := Find(nl, s);
    if k == |s| then [] else [s[..k]] + Lines(nl, s[k + 1..])
  }

  /** What follows the last newline. */
  function Remainder(nl: Byte, s: Bytes): Bytes
    decreases |s|
  {
    var k := Find(nl, s);
    if k == |s| then s else Remainder(nl, s[k + 1..])
  }

  function StripCr(line: Bytes): Bytes {
    if line != [] && line[|line| - 1] == CARRIAGE_RETURN then line[..|line| - 1] else line
  }

  lemma {:induction false} FindUnique(nl: Byte, s: Bytes, k: nat)
    requires k < |s| && s[k] == nl && forall j :: 0 <= j < k ==> s[j] != nl
    ensures Find(nl, s) == k
  {
  }

  /** Text may arrive in pieces if the unfinished line is kept in front of the next piece. */
  lemma {:induction false} LinesResume(nl: Byte, a: Bytes, b: Bytes)
    ensures Lines(nl, a + b) == Lines(nl, a) + Lines(nl, Remainder(nl, a) + b)
    ensures Remainder(nl, a + b) == Remainder(nl, Remainder(nl, a) + b)
    decreases |a|
  {
    var k := Find(nl, a);
    hide Lines, Remainder, Find;
    if k == |a| {
      Unfinished(nl, a);
      assert [] + Lines(nl, a + b) == Lines(nl, a + b);
    } else {
      FirstLine(nl, a, k);
      FirstLine(nl, a + b, k);
      assert (a + b)[..k] == a[..k] && (a + b)[k + 1..] == a[k + 1..] + b;
      LinesResume(nl, a[k + 1..], b);
      var x, y, z := [a[..k]], Lines(nl, a[k + 1..]), Lines(nl, Remainder(nl, a[k + 1..]) + b);
      assert x + (y + z) == (x + y) + z;
    }
  }

  lemma {:induction false} Unfinished(nl: Byte, s: Bytes)
    requires Find(nl, s) == |s|
    ensures Lines(nl, s) == [] && Remainder(nl, s) == s
  {
  }

  lemma {:induction false} FirstLine(nl: Byte, s: Bytes, k: nat)
    requires k < |s| && s[k] == nl && forall j :: 0 <= j < k ==> s[j] != nl
    ensures Lines(nl, s) == [s[..k]] + Lines(nl, s[k + 1..])
    ensures Remainder(nl, s) == Remainder(nl, s[k + 1..])
  {
    FindUnique(nl, s, k);
  }

  // -------------------------------------------------------------- one line

  /** The data set's format and the per-line encoder; encoding a line may fail. */
  datatype Config = Config(isAsa: bool, maxLen: int, newline: Byte, encode: Bytes -> Option<Bytes>)

  /** What a line leads to: nothing, a failure, or a record preceded by empty triple-space records. */
  datatype Step = Skipped | Failed | Emit(overflow: nat, record: Bytes, long: bool)

  /** `trailing` marks content after the last newline, which is skipped when empty in either format. */
  function StepOf(cfg: Config, blanks: nat, raw: Bytes, trailing: bool): Step {
    var line := StripCr(raw);
    if trailing && line == [] then Skipped
    else if cfg.isAsa then
      match Asa.Prepare(blanks, line)
      case Skip => Skipped
      case Write(overflow, control, text) => Encoded(cfg, overflow, [control], text)
    else Encoded(cfg, 0, [], line)
  }

  function Encoded(cfg: Config, overflow: nat, control: Bytes, text: Bytes): Step {
    match cfg.encode(text)
    case None => Failed
    case Some(e) => Emit(overflow, control + e, |e| + |control| > cfg.maxLen)
  }

  function BlanksAfter(cfg: Config, blanks: nat, raw: Bytes, trailing: bool): nat {
    if !cfg.isAsa || (trailing && StripCr(raw) == []) then blanks else Asa.BlanksAfter(blanks, StripCr(raw))
  }

  /** Counters both paths keep: pending blanks, lines written, and the numbers of lines cut short. */
  datatype Progress = Progress(blanks: nat, lineNum: nat, truncated: seq<nat>)

  const START := Progress(0, 0, [])

  function Counted(p: Progress, step: Step): Progress {
    if step.Emit? then
      p.(lineNum := p.lineNum + 1,
         truncated := if step.long then p.truncated + [p.lineNum + 1] else p.truncated)
    else p
  }

  /** The empty `-` records. */
  function Dashes(n: nat): seq<Bytes> {
    if n == 0 then [] else Dashes(n - 1) + [[Asa.TRIPLE_SPACE]]
  }

  // -------------------------------------------------------------- both paths

  /** Whole path: records collected so far. Streamed path: records written so far and the line kept back. */
  datatype Run =
    | Stopped
    | Whole(progress: Progress, records: seq<Bytes>)
    | Streamed(progress: Progress, records: seq<Bytes>, prev: Option<Bytes>)

  function Kept(prev: Option<Bytes>): seq<Bytes> {
    if prev.Some? then [prev.value] else []
  }

  /**
   * The whole path puts overflow records right before their line; the streamed path puts them before the
   * line kept back.
   */
  function Take(run: Run, step: Step): Run {
    match (run, step)
    case (Stopped, _) => Stopped
    case (_, Failed) => Stopped
    case (_, Skipped) => run
    case (Whole(p, records), Emit(overflow, record, _)) =>
      Whole(Counted(p, step), records + Dashes(overflow) + [record])
    case (Streamed(p, records, prev), Emit(overflow, record, _)) =>
      Streamed(Counted(p, step), records + Dashes(overflow) + Kept(prev), Some(record))
  }

  function TakeLine(cfg: Config, run: Run, raw: Bytes, trailing: bool): Run {
    if run.Stopped? then Stopped else
      var next := Take(run, StepOf(cfg, run.progress.blanks, raw, trailing));
      if next.Stopped? then Stopped
      else next.(progress := next.progress.(blanks := BlanksAfter(cfg, run.progress.blanks, raw, trailing)))
  }

  function TakeLines(cfg: Config, run: Run, lines: seq<Bytes>): Run {
    if lines == [] then run
    else TakeLine(cfg, TakeLines(cfg, run, lines[..|lines| - 1]), lines[|lines| - 1], false)
  }

  /** The records in the order written and the truncated line numbers, or failure. */
  datatype Written = Failure | Written(records: seq<Bytes>, truncated: seq<nat>)

  function Finish(run: Run): Written {
    match run
    case Stopped => Failure
    case Whole(p, records) => Written(records, p.truncated)
    case Streamed(p, records, prev) => Written(records + Kept(prev), p.truncated)
  }

  function WriteAs(cfg: Config, start: Run, data: Bytes): Written {
    Finish(TakeLine(cfg, TakeLines(cfg, start, Lines(cfg.newline, data)), Remainder(cfg.newline, data), true))
  }

  const WHOLE := Whole(START, [])
  const STREAMED := Streamed(START, [], None)

  // ------------------------------------------------------------ computation

  /** CR removal, ASA preparation, encoding and the length test for one line. */
  method PrepareStep(cfg: Config, asa: Asa.AsaStreamState, raw: Bytes, trailing: bool) returns (step: Step)
    modifies asa
    ensures step == StepOf(cfg, old(asa.blankCount), raw, trailing)
    ensures asa.blankCount == BlanksAfter(cfg, old(asa.blankCount), raw, trailing)
  {
    var line := raw;
    if line != [] && line[|line| - 1] == CARRIAGE_RETURN {
      line := line[..|line| - 1];
    }
    if trailing && line == [] { return Skipped; }
    var control: Bytes := [];
    var overflow := 0;
    if cfg.isAsa {
      var prepared := asa.PrepareLine(line);
      if prepared.Skip? { return Skipped; }
      overflow, control, line := prepared.overflow, [prepared.control], prepared.text;
    }
    var encoded := cfg.encode(line);
    if encoded.None? { return Failed; }
    var long := |encoded.value| + (if cfg.isAsa then 1 else 0) > cfg.maxLen;
    return Emit(overflow, control + encoded.value, long);
  }

  method MakeDashes(n: nat) returns (records: seq<Bytes>)
    ensures records == Dashes(n)
  {
    records := [];
    for i := 0 to n
      invariant records == Dashes(i)
    {
      records := records + [[Asa.TRIPLE_SPACE]];
    }
  }

  lemma {:induction false} TakeNext(cfg: Config, start: Run, done: seq<Bytes>, line: Bytes)
    ensures TakeLines(cfg, start, done + [line]) == TakeLine(cfg, TakeLines(cfg, start, done), line, false)
  {
    assert (done + [line])[..|done|] == done;
  }

  /** A failed line fails the member, whatever follows. */
  lemma {:induction false} StaysStopped(cfg: Config, start: Run, done: seq<Bytes>, more: seq<Bytes>)
    requires TakeLines(cfg, start, done) == Stopped
    ensures TakeLines(cfg, start, done + more) == Stopped
    decreases |more|
  {
    if more == [] {
      assert done + more == done;
    } else {
      var before := more[..|more| - 1];
      StaysStopped(cfg, start, done, before);
      assert done + more == done + before + [more[|more| - 1]];
      TakeNext(cfg, start, done + before, more[|more| - 1]);
    }
  }

  /** The next line of the unread text, and what it leaves. */
  lemma {:induction false} ReadLine(nl: Byte, text: Bytes, pos: nat, k: nat, done: seq<Bytes>, all: seq<Bytes>)
    requires pos <= k < |text| && text[k] == nl && forall j :: pos <= j < k ==> text[j] != nl
    requires all == done + Lines(nl, text[pos..])
    ensures all == done + [text[pos..k]] + Lines(nl, text[k + 1..])
    ensures Remainder(nl, text[pos..]) == Remainder(nl, text[k + 1..])
  {
    var rest := text[pos..];
    FirstLine(nl, rest, k - pos);
    assert rest[..k - pos] == text[pos..k] && rest[k - pos + 1..] == text[k + 1..];
  }

  /** `data.find(newline, pos)`. */
  function FindFrom(nl: Byte, text: Bytes, pos: nat): (k: nat)
    requires pos <= |text|
    ensures pos <= k <= |text| && (k < |text| ==> text[k] == nl) && forall j :: pos <= j < k ==> text[j] != nl
  {
    var k := Find(nl, text[pos..]);
    assert forall j :: pos <= j < pos + k ==> text[j] == text[pos..][j - pos];
    pos + k
  }

  lemma {:induction false} NoMoreLines(nl: Byte, text: Bytes, pos: nat)
    requires pos <= |text| && FindFrom(nl, text, pos) == |text|
    ensures Lines(nl, text[pos..]) == [] && Remainder(nl, text[pos..]) == text[pos..]
  {
    Unfinished(nl, text[pos..]);
  }

  /** The whole-string path: records are collected and then written in that order. */
  method WriteMember(cfg: Config, data: Bytes) returns (r: Written)
    ensures r == WriteAs(cfg, WHOLE, data)
  {
    hide Lines, Remainder, TakeLines, Find, FindFrom, StepOf, BlanksAfter;
    var asa := new Asa.AsaStreamState();
    var linesToWrite: seq<Bytes> := [];
    var lineNum, truncated := 0, [];
    var pos := 0;
    ghost var done, all := [], Lines(cfg.newline, data);
    assert data[0..] == data && [] + all == all;
    NoLinesYet(cfg, WHOLE);
    var newlinePos := FindFrom(cfg.newline, data, pos);
    while newlinePos < |data|
      invariant 0 <= pos <= newlinePos <= |data| && newlinePos == FindFrom(cfg.newline, data, pos)
      invariant all == done + Lines(cfg.newline, data[pos..])
      invariant Remainder(cfg.newline, data[pos..]) == Remainder(cfg.newline, data)
      invariant Whole(Progress(asa.blankCount, lineNum, truncated), linesToWrite) == TakeLines(cfg, WHOLE, done)
      decreases |data| - pos
    {
      var line := data[pos..newlinePos];
      ReadLine(cfg.newline, data, pos, newlinePos, done, all);
      TakeNext(cfg, WHOLE, done, line);
      done := done + [line];
      var step := PrepareStep(cfg, asa, line, false);
      if step.Failed? {
        StaysStopped(cfg, WHOLE, done, Lines(cfg.newline, data[newlinePos + 1..]));
        return Failure;
      }
      if step.Emit? {
        var dashes := MakeDashes(step.overflow);
        lineNum := lineNum + 1;
        if step.long { truncated := truncated + [lineNum]; }
        linesToWrite := linesToWrite + dashes + [step.record];
      }
      pos := newlinePos + 1;
      newlinePos := FindFrom(cfg.newline, data, pos);
    }
    NoMoreLines(cfg.newline, data, pos);
    assert all == done + [] == done;
    var step := PrepareStep(cfg, asa, data[pos..], true);
    if step.Failed? { return Failure; }
    if step.Emit? {
      var dashes := MakeDashes(step.overflow);
      lineNum := lineNum + 1;
      if step.long { truncated := truncated + [lineNum]; }
      linesToWrite := linesToWrite + dashes + [step.record];
    }
    return Written(linesToWrite, truncated);
  }

  lemma {:induction false} NoLinesYet(cfg: Config, start: Run)
    ensures TakeLines(cfg, start, []) == start
  {
  }

  /** The outcome of a streamed write: undecodable input is an exception. */
  datatype StreamedResult = BadInput | Outcome(written: Written)

  /** The variables of the streamed path that live across chunks. */
  class StreamWriter {
    const cfg: Config
    const asa: Asa.AsaStreamState
    var lineBuffer: Bytes
    var prev: Option<Bytes>
    var lineNum: nat
    var truncated: seq<nat>
    var records: seq<Bytes>

    constructor (cfg: Config)
      ensures fresh(asa) && this.cfg == cfg && lineBuffer == [] && State() == STREAMED
    {
      this.cfg := cfg;
      asa := new Asa.AsaStreamState();
      lineBuffer, prev, lineNum, truncated, records := [], None, 0, [], [];
    }

    ghost function State(): Run
      reads this, asa
    {
      Streamed(Progress(asa.blankCount, lineNum, truncated), records, prev)
    }

    /** Overflow records go out at once, then the line kept back; the new line is kept. */
    method TakeOne(line: Bytes, trailing: bool) returns (ok: bool)
      modifies this`prev, this`lineNum, this`truncated, this`records, asa
      ensures TakeLine(cfg, old(State()), line, trailing) == if ok then State() else Stopped
    {
      var step := PrepareStep(cfg, asa, line, trailing);
      hide StepOf, BlanksAfter;
      if step.Failed? { return false; }
      if step.Emit? {
        var dashes := MakeDashes(step.overflow);
        records := records + dashes;
        lineNum := lineNum + 1;
        if step.long { truncated := truncated + [lineNum]; }
        if prev.Some? { records := records + [prev.value]; }
        else { assert records + [] == records; }
        prev := Some(step.record);
      }
      return true;
    }

    /** One decoded chunk: complete lines are taken, the partial line stays in the buffer. */
    method TakeChunk(more: Bytes, ghost text: Bytes) returns (ok: bool)
      requires lineBuffer == Remainder(cfg.newline, text)
      requires State() == TakeLines(cfg, STREAMED, Lines(cfg.newline, text))
      modifies this, asa
      ensures ok ==> lineBuffer == Remainder(cfg.newline, text + more)
      ensures TakeLines(cfg, STREAMED, Lines(cfg.newline, text + more)) == if ok then State() else Stopped
    {
      hide Lines, Remainder, TakeLines, TakeLine, Find, FindFrom;
      LinesResume(cfg.newline, text, more);
      ghost var done, all := Lines(cfg.newline, text), Lines(cfg.newline, text + more);
      lineBuffer := lineBuffer + more;
      var pos := 0;
      assert lineBuffer[0..] == lineBuffer;
      var newlinePos := FindFrom(cfg.newline, lineBuffer, pos);
      while newlinePos < |lineBuffer|
        invariant 0 <= pos <= newlinePos <= |lineBuffer| && newlinePos == FindFrom(cfg.newline, lineBuffer, pos)
        invariant all == done + Lines(cfg.newline, lineBuffer[pos..])
        invariant Remainder(cfg.newline, lineBuffer[pos..]) == Remainder(cfg.newline, text + more)
        invariant State() == TakeLines(cfg, STREAMED, done)
        decreases |lineBuffer| - pos
      {
        var line := lineBuffer[pos..newlinePos];
        ReadLine(cfg.newline, lineBuffer, pos, newlinePos, done, all);
        TakeNext(cfg, STREAMED, done, line);
        done := done + [line];
        ok := TakeOne(line, false);
        if !ok {
          StaysStopped(cfg, STREAMED, done, Lines(cfg.newline, lineBuffer[newlinePos + 1..]));
          return;
        }
        pos := newlinePos + 1;
        newlinePos := FindFrom(cfg.newline, lineBuffer, pos);
      }
      NoMoreLines(cfg.newline, lineBuffer, pos);
      assert all == done + [] == done;
      lineBuffer := lineBuffer[pos..];
      return true;
    }
  }

  /** The streamed path over the chunks read from the pipe. */
  method WriteMemberStreamed(cfg: Config, chunks: seq<Bytes>) returns (r: StreamedResult)
    ensures match Blockwise.Run(Base64.DecodeBlock, 4, Concat(chunks))
            case None => r == BadInput || r == Outcome(Failure)
            case Some(data) => r == Outcome(WriteAs(cfg, STREAMED, data))
    ensures var data := Base64.Decode(Concat(chunks));
            data.Ok? ==>
              && (r == Outcome(WriteAs(cfg, WHOLE, data.bytes)) <==> Agreeing(cfg, data.bytes))
              && (!(cfg.isAsa && TripleGap(TextLines(cfg, data.bytes))) ==> Agreeing(cfg, data.bytes))
  {
    hide WriteAs, TextLines, TripleGap, Agreeing;
    hide Lines, Remainder, TakeLines, Base64.DecodeBlock, Blockwise.Run, Blockwise.Rest;
    AgreesWithWhole(cfg, Concat(chunks));
    var writer := new StreamWriter(cfg);
    var leftOver := new Base64.LeftOver();
    ghost var text: Bytes := [];
    NothingReadYet(cfg);
    for k := 0 to |chunks|
      invariant fresh(writer) && fresh(writer.asa) && fresh(leftOver) && writer.cfg == cfg
      invariant leftOver.bytes == Blockwise.Rest(4, Concat(chunks[..k]))
      invariant Blockwise.Run(Base64.DecodeBlock, 4, Concat(chunks[..k])) == Some(text)
      invariant writer.lineBuffer == Remainder(cfg.newline, text)
      invariant writer.State() == TakeLines(cfg, STREAMED, Lines(cfg.newline, text))
    {
      var decoded := leftOver.DecodeChunk(chunks[k]);
      Blockwise.Resume(Base64.DecodeBlock, 4, Concat(chunks[..k]), chunks[k]);
      ConcatNext(chunks, k);
      if !decoded.Ok? {
        Base64.RejectedChunks(chunks, k + 1);
        return BadInput;
      }
      var ok := writer.TakeChunk(decoded.bytes, text);
      text := text + decoded.bytes;
      if !ok {
        FailedPrefix(cfg, chunks, k + 1, text);
        return Outcome(Failure);
      }
    }
    assert chunks[..|chunks|] == chunks;
    var ok := writer.TakeOne(writer.lineBuffer, true);
    StreamedEnd(cfg, text);
    if !ok { return Outcome(Failure); }
    var last := writer.records;
    if writer.prev.Some? { last := last + [writer.prev.value]; }
    else { assert last + [] == last; }
    return Outcome(Written(last, writer.truncated));
  }

  lemma {:induction false} StreamedEnd(cfg: Config, text: Bytes)
    ensures WriteAs(cfg, STREAMED, text)
         == Finish(TakeLine(cfg, TakeLines(cfg, STREAMED, Lines(cfg.newline, text)), Remainder(cfg.newline, text),
           true))
  {
  }

  lemma {:induction false} NothingReadYet(cfg: Config)
    ensures Lines(cfg.newline, []) == [] && Remainder(cfg.newline, []) == []
    ensures TakeLines(cfg, STREAMED, []) == STREAMED
    ensures Blockwise.Rest(4, []) == [] && Blockwise.Run(Base64.DecodeBlock, 4, []) == Some([])
    ensures Concat<Byte>([]) == []
  {
  }

  /** Once a line has failed, later chunks cannot change the verdict. */
  lemma {:induction false} FailedPrefix(cfg: Config, chunks: seq<Bytes>, k: nat, text: Bytes)
    requires k <= |chunks| && Blockwise.Run(Base64.DecodeBlock, 4, Concat(chunks[..k])) == Some(text)
    requires TakeLines(cfg, STREAMED, Lines(cfg.newline, text)) == Stopped
    ensures var all := Blockwise.Run(Base64.DecodeBlock, 4, Concat(chunks));
            all.Some? ==> WriteAs(cfg, STREAMED, all.value) == Failure
    decreases |chunks| - k
  {
    hide Lines, Remainder, TakeLines, Base64.DecodeBlock, Blockwise.Run, Blockwise.Rest;
    if k == |chunks| {
      assert chunks[..k] == chunks;
    } else {
      ConcatNext(chunks, k);
      var seen := Concat(chunks[..k]);
      Blockwise.Resume(Base64.DecodeBlock, 4, seen, chunks[k]);
      var next := Blockwise.Run(Base64.DecodeBlock, 4, Blockwise.Rest(4, seen) + chunks[k]);
      if next.Some? {
        LinesResume(cfg.newline, text, next.value);
        StaysStopped(cfg, STREAMED, Lines(cfg.newline, text), Lines(cfg.newline, Remainder(cfg.newline,
          text) + next.value));
        FailedPrefix(cfg, chunks, k + 1, text + next.value);
      } else {
        Base64.RejectedChunks(chunks, k + 1);
      }
    }
  }

  // ------------------------------------------------- when the two paths agree

  /** The text of each line, the unfinished last one included. */
  function TextLines(cfg: Config, data: Bytes): seq<Bytes> {
    StripAll(Lines(cfg.newline, data) + [Remainder(cfg.newline, data)])
  }

  function StripAll(lines: seq<Bytes>): seq<Bytes> {
    if lines == [] then [] else StripAll(lines[..|lines| - 1]) + [StripCr(lines[|lines| - 1])]
  }

  /** Three blank lines between two lines of text. */
  ghost predicate TripleGap(lines: seq<Bytes>) {
    exists m: nat, k: nat :: GapAt(lines, m, k)
  }

  ghost predicate GapAt(lines: seq<Bytes>, m: nat, k: nat) {
    && m < k - 3 && k < |lines| && lines[m] != [] && lines[k] != []
    && lines[k - 1] == [] && lines[k - 2] == [] && lines[k - 3] == []
  }

  ghost predicate HasText(lines: seq<Bytes>) {
    exists m :: 0 <= m < |lines| && lines[m] != []
  }

  /** The last three lines are blank exactly when at least three blanks are pending. */
  lemma {:induction false} PendingBlanks(lines: seq<Bytes>, n: nat)
    requires n <= 3
    ensures Asa.Blanks(lines) >= n <==> n <= |lines| && forall j :: |lines| - n <= j < |lines| ==> lines[j] == []
    decreases |lines|
  {
    if lines != [] && n > 0 {
      var before := lines[..|lines| - 1];
      PendingBlanks(before, n - 1);
      assert forall j :: 0 <= j < |before| ==> before[j] == lines[j];
      PendingBlanksAtMostLength(before);
    }
  }

  lemma {:induction false} PendingBlanksAtMostLength(lines: seq<Bytes>)
    ensures Asa.Blanks(lines) <= |lines|
  {
    if lines != [] { PendingBlanksAtMostLength(lines[..|lines| - 1]); }
  }

  /** A gap appears when a line of text follows pending blanks and earlier text. */
  lemma {:induction false} GapNext(lines: seq<Bytes>, line: Bytes)
    ensures TripleGap(lines + [line]) <==>
              TripleGap(lines) || (line != [] && Asa.Blanks(lines) >= 3 && HasText(lines))
  {
    var more := lines + [line];
    PendingBlanks(lines, 3);
    if TripleGap(more) {
      var m: nat, k: nat :| GapAt(more, m, k);
      if k < |lines| { assert GapAt(lines, m, k); } else { assert lines[m] == more[m]; }
    }
    if TripleGap(lines) {
      var m: nat, k: nat :| GapAt(lines, m, k);
      assert GapAt(more, m, k);
    }
    if line != [] && Asa.Blanks(lines) >= 3 && HasText(lines) {
      var m :| 0 <= m < |lines| && lines[m] != [];
      assert GapAt(more, m, |lines|);
    }
  }

  /** The record a line of text becomes after so many blank ones. */
  function RecordFor(cfg: Config, blanks: nat, line: Bytes): Bytes {
    match Asa.Prepare(blanks, line)
    case Skip => []
    case Write(_, control, text) => [control] + match cfg.encode(text) case None => [] case Some(e) => e
  }

  /** The record of the last line of text, which the streamed path keeps back. */
  function LastRecord(cfg: Config, lines: seq<Bytes>): Option<Bytes> {
    if lines == [] then None
    else
      var before, last := lines[..|lines| - 1], lines[|lines| - 1];
      if last == [] then LastRecord(cfg, before) else Some(RecordFor(cfg, Asa.Blanks(before), last))
  }

  /** A line that sends overflow records past a record that can be told from them. */
  ghost predicate SwapAt(cfg: Config, lines: seq<Bytes>, k: nat) {
    && k < |lines| && lines[k] != [] && Asa.Blanks(lines[..k]) >= 3
    && LastRecord(cfg, lines[..k]).Some? && LastRecord(cfg, lines[..k]) != Some([Asa.TRIPLE_SPACE])
  }

  ghost predicate Swaps(cfg: Config, lines: seq<Bytes>) {
    exists k: nat :: SwapAt(cfg, lines, k)
  }

  lemma {:induction false} SwapNext(cfg: Config, lines: seq<Bytes>, line: Bytes)
    ensures Swaps(cfg, lines + [line]) <==>
              Swaps(cfg, lines)
              || (line != [] && Asa.Blanks(lines) >= 3
                  && LastRecord(cfg, lines).Some? && LastRecord(cfg, lines) != Some([Asa.TRIPLE_SPACE]))
  {
    hide LastRecord, Asa.Blanks;
    var more := lines + [line];
    assert more[..|lines|] == lines;
    assert forall k :: 0 <= k < |lines| ==> more[..k] == lines[..k];
    if Swaps(cfg, more) {
      var k: nat :| SwapAt(cfg, more, k);
      if k < |lines| { assert SwapAt(cfg, lines, k); }
    }
    if Swaps(cfg, lines) {
      var k: nat :| SwapAt(cfg, lines, k);
      assert SwapAt(cfg, more, k);
    }
    if !Swaps(cfg, more) { assert !SwapAt(cfg, more, |lines|); }
  }

  lemma {:induction false} LastRecordNext(cfg: Config, lines: seq<Bytes>, line: Bytes)
    ensures LastRecord(cfg, lines + [line]) ==
            if line == [] then LastRecord(cfg, lines) else Some(RecordFor(cfg, Asa.Blanks(lines), line))
  {
    hide RecordFor, Asa.Blanks;
    assert (lines + [line])[..|lines|] == lines;
  }

  /** Encoding never makes text disappear. */
  ghost predicate KeepsText(cfg: Config) {
    forall t :: t != [] && cfg.encode(t).Some? ==> cfg.encode(t).value != []
  }

  /** If every line of text could be encoded. */
  ghost predicate AllEncode(cfg: Config, lines: seq<Bytes>) {
    forall k :: 0 <= k < |lines| && lines[k] != [] ==> cfg.encode(Asa.Text(lines[k])).Some?
  }

  /** A swap needs a gap, and a gap swaps unless text can disappear. */
  lemma {:induction false} GapsSwap(cfg: Config, lines: seq<Bytes>)
    ensures Swaps(cfg, lines) ==> TripleGap(lines)
    ensures KeepsText(cfg) && AllEncode(cfg, lines) ==> (Swaps(cfg, lines) <==> TripleGap(lines))
    ensures LastRecord(cfg, lines).Some? <==> HasText(lines)
    ensures KeepsText(cfg) && AllEncode(cfg, lines) ==> LastRecord(cfg, lines) != Some([Asa.TRIPLE_SPACE])
    decreases |lines|
  {
    hide Swaps, TripleGap, HasText, LastRecord, Asa.Blanks, KeepsText, RecordFor;
    if lines == [] {
      NoLinesNoSwap(cfg);
    } else {
      var before, line := lines[..|lines| - 1], lines[|lines| - 1];
      assert lines == before + [line];
      GapsSwap(cfg, before);
      GapNext(before, line);
      SwapNext(cfg, before, line);
      TextNext(before, line);
      LastRecordNext(cfg, before, line);
      assert forall k :: 0 <= k < |before| ==> before[k] == lines[k];
      if KeepsText(cfg) && AllEncode(cfg, lines) && line != [] { NotADash(cfg, Asa.Blanks(before), line); }
    }
  }

  lemma {:induction false} NoLinesNoSwap(cfg: Config)
    ensures !Swaps(cfg, []) && !TripleGap([]) && !HasText([]) && LastRecord(cfg, []) == None
  {
  }

  /** A control character and text never make the empty triple-space record. */
  lemma {:induction false} NotADash(cfg: Config, blanks: nat, line: Bytes)
    requires KeepsText(cfg) && line != [] && cfg.encode(Asa.Text(line)).Some?
    ensures RecordFor(cfg, blanks, line) != [Asa.TRIPLE_SPACE]
  {
    var text, r := Asa.Text(line), RecordFor(cfg, blanks, line);
    var e := cfg.encode(text).value;
    if text != [] { assert e != []; }
    assert r == [Asa.Prepare(blanks, line).control] + e;
    assert r[0] != Asa.TRIPLE_SPACE || |r| > 1;
  }

  /** Some position holds different records in the two sequences, and appending cannot repair it. */
  ghost predicate Differ(x: seq<Bytes>, y: seq<Bytes>) {
    exists i :: 0 <= i < |x| && i < |y| && x[i] != y[i]
  }

  /** How the two runs compare after the same lines. */
  ghost predicate Compared(cfg: Config, lines: seq<Bytes>, w: Run, s: Run) {
    || (w == Stopped && s == Stopped)
    || (&& w.Whole? && s.Streamed? && w.progress == s.progress
        && (cfg.isAsa ==>
              w.progress.blanks == Asa.Blanks(lines) && s.prev == LastRecord(cfg, lines) && AllEncode(cfg, lines))
        && (if cfg.isAsa && Swaps(cfg, lines) then Differ(w.records, s.records)
            else w.records == s.records + Kept(s.prev)))
  }

  lemma {:induction false} DifferAppends(x: seq<Bytes>, y: seq<Bytes>, x': seq<Bytes>, y': seq<Bytes>)
    requires Differ(x, y)
    ensures Differ(x + x', y + y')
  {
    var i :| 0 <= i < |x| && i < |y| && x[i] != y[i];
    assert (x + x')[i] != (y + y')[i];
  }

  /** Without overflow, without a line kept back, or with one that looks like overflow, both paths append the same. */
  lemma {:induction false} SameAppend(w: seq<Bytes>, s: seq<Bytes>, prev: Option<Bytes>, overflow: nat, record: Bytes)
    requires w == s + Kept(prev) && (overflow == 0 || prev.None? || prev == Some([Asa.TRIPLE_SPACE]))
    ensures w + Dashes(overflow) + [record] == s + Dashes(overflow) + Kept(prev) + [record]
  {
    if overflow == 0 {
      assert w + [] == w && s + [] + Kept(prev) == s + Kept(prev);
    } else if prev.None? {
      assert w == s && s + Dashes(overflow) + [] == s + Dashes(overflow);
    } else {
      var dash := [[Asa.TRIPLE_SPACE]];
      DashesCommute(overflow);
      assert w + Dashes(overflow) == s + (dash + Dashes(overflow));
      assert s + Dashes(overflow) + dash == s + (Dashes(overflow) + dash);
    }
  }

  lemma {:induction false} DashesCommute(n: nat)
    ensures [[Asa.TRIPLE_SPACE]] + Dashes(n) == Dashes(n) + [[Asa.TRIPLE_SPACE]]
  {
    if n > 0 {
      DashesCommute(n - 1);
      var dash := [[Asa.TRIPLE_SPACE]];
      assert dash + (Dashes(n - 1) + dash) == (dash + Dashes(n - 1)) + dash;
    }
  }

  /** With both, the first overflow record stands where the line kept back should. */
  lemma {:induction false} SwappedAppend(w: seq<Bytes>, s: seq<Bytes>, prev: Bytes, overflow: nat, record: Bytes)
    requires w == s + [prev] && overflow > 0 && prev != [Asa.TRIPLE_SPACE]
    ensures Differ(w + Dashes(overflow) + [record], s + Dashes(overflow) + [prev])
  {
    FirstDash(overflow);
    assert (w + Dashes(overflow) + [record])[|s|] == prev;
    assert (s + Dashes(overflow) + [prev])[|s|] == [Asa.TRIPLE_SPACE];
  }

  lemma {:induction false} FirstDash(n: nat)
    requires n > 0
    ensures Dashes(n) != [] && Dashes(n)[0] == [Asa.TRIPLE_SPACE]
  {
    if n > 1 { FirstDash(n - 1); }
  }

  lemma {:induction false} TextNext(lines: seq<Bytes>, line: Bytes)
    ensures HasText(lines + [line]) <==> HasText(lines) || line != []
    ensures Asa.Blanks(lines + [line]) == Asa.BlanksAfter(Asa.Blanks(lines), line)
  {
    assert (lines + [line])[..|lines|] == lines;
    if HasText(lines) {
      var m :| 0 <= m < |lines| && lines[m] != [];
      assert (lines + [line])[m] != [];
    }
    if line != [] { assert (lines + [line])[|lines|] != []; }
  }

  /** What ASA preparation makes of one line, in the terms of the step. */
  lemma {:induction false} AsaStep(cfg: Config, blanks: nat, raw: Bytes, trailing: bool)
    requires cfg.isAsa
    ensures var step, line := StepOf(cfg, blanks, raw, trailing), StripCr(raw);
            && (step.Skipped? <==> line == [])
            && (step.Emit? ==> (step.overflow > 0 <==> blanks >= 3) && step.record == RecordFor(cfg, blanks, line)
                               && cfg.encode(Asa.Text(line)).Some?)
  {
    hide StripCr;
  }

  lemma {:induction false} PlainStep(cfg: Config, blanks: nat, raw: Bytes, trailing: bool)
    requires !cfg.isAsa
    ensures var step := StepOf(cfg, blanks, raw, trailing); step.Emit? ==> step.overflow == 0
  {
  }

  lemma {:induction false} LineCompared(cfg: Config, lines: seq<Bytes>, w: Run, s: Run, raw: Bytes)
    requires Compared(cfg, lines, w, s)
    ensures Compared(cfg, lines + [StripCr(raw)], TakeLine(cfg, w, raw, false), TakeLine(cfg, s, raw, false))
  {
    hide StepOf, Asa.Blanks, Differ, Swaps, LastRecord, RecordFor, StripCr;
    if !w.Stopped? {
      var line, blanks := StripCr(raw), w.progress.blanks;
      var step := StepOf(cfg, blanks, raw, false);
      SwapNext(cfg, lines, line);
      LastRecordNext(cfg, lines, line);
      TextNext(lines, line);
      if cfg.isAsa { AsaStep(cfg, blanks, raw, false); } else { PlainStep(cfg, blanks, raw, false); }
      if step.Emit? { EmitCompared(cfg, lines, w, s, step); }
    }
  }

  lemma {:induction false} EmitCompared(cfg: Config, lines: seq<Bytes>, w: Run, s: Run, step: Step)
    requires Compared(cfg, lines, w, s) && w.Whole? && step.Emit?
    requires cfg.isAsa ==> (step.overflow > 0 <==> w.progress.blanks >= 3)
    requires !cfg.isAsa ==> step.overflow == 0
    ensures
      var w', s' := Take(w, step), Take(s, step);
      var swaps := cfg.isAsa && (Swaps(cfg, lines) || (Asa.Blanks(lines) >= 3
                     && LastRecord(cfg, lines).Some? && LastRecord(cfg, lines) != Some([Asa.TRIPLE_SPACE])));
      if swaps then Differ(w'.records, s'.records) else w'.records == s'.records + Kept(s'.prev)
  {
    hide Swaps, LastRecord, Asa.Blanks, Differ, Dashes;
    if cfg.isAsa && Swaps(cfg, lines) {
      DifferAppends(w.records, s.records,
                    Dashes(step.overflow) + [step.record], Dashes(step.overflow) + Kept(s.prev));
      assert w.records + (Dashes(step.overflow) + [step.record]) == Take(w, step).records;
      assert s.records + (Dashes(step.overflow) + Kept(s.prev)) == Take(s, step).records;
    } else if step.overflow > 0 && s.prev.Some? && s.prev != Some([Asa.TRIPLE_SPACE]) {
      SwappedAppend(w.records, s.records, s.prev.value, step.overflow, step.record);
    } else {
      SameAppend(w.records, s.records, s.prev, step.overflow, step.record);
    }
  }

  lemma {:induction false} LinesCompared(cfg: Config, lines: seq<Bytes>)
    ensures Compared(cfg, StripAll(lines), TakeLines(cfg, WHOLE, lines), TakeLines(cfg, STREAMED, lines))
  {
    if lines == [] {
      EmptyCompared(cfg);
    } else {
      var before := lines[..|lines| - 1];
      LinesCompared(cfg, before);
      LineCompared(cfg, StripAll(before), TakeLines(cfg, WHOLE, before), TakeLines(cfg, STREAMED, before),
                   lines[|lines| - 1]);
    }
  }

  lemma {:induction false} EmptyCompared(cfg: Config)
    ensures Compared(cfg, [], WHOLE, STREAMED)
  {
    assert WHOLE.records == STREAMED.records + Kept(STREAMED.prev);
  }

  /** The unfinished last line: nothing if empty, else like any other line. */
  lemma {:induction false} TrailingLine(cfg: Config, run: Run, raw: Bytes)
    ensures TakeLine(cfg, run, raw, true) == if StripCr(raw) == [] then run else TakeLine(cfg, run, raw, false)
  {
  }

  /**
   * Whatever the encoder, the two paths fail together and report the same truncated lines, and they
   * write the same records in the same order exactly when no overflow record passes a line of text it
   * can be told from. For that three blank lines must stand between lines of an ASA text, which is
   * enough if encoding never makes text disappear.
   */
  lemma {:induction false} StreamedMatchesWhole(cfg: Config, data: Bytes)
    ensures
      var w, s, text := WriteAs(cfg, WHOLE, data), WriteAs(cfg, STREAMED, data), TextLines(cfg, data);
      && (w.Failure? <==> s.Failure?)
      && (!w.Failure? ==> w.truncated == s.truncated)
      && (!w.Failure? ==> (w.records == s.records <==> !(cfg.isAsa && Swaps(cfg, text))))
      && (Swaps(cfg, text) ==> TripleGap(text))
      && (!w.Failure? && cfg.isAsa && KeepsText(cfg) ==> (Swaps(cfg, text) <==> TripleGap(text)))
  {
    hide Lines, Remainder, TakeLine, TakeLines, StripCr, StripAll, Asa.Blanks, TripleGap, KeepsText, Swaps,
      LastRecord, AllEncode;
    var lines, raw := Lines(cfg.newline, data), Remainder(cfg.newline, data);
    var w, s := TakeLines(cfg, WHOLE, lines), TakeLines(cfg, STREAMED, lines);
    var text := TextLines(cfg, data);
    LinesCompared(cfg, lines);
    LineCompared(cfg, StripAll(lines), w, s, raw);
    TrailingLine(cfg, w, raw);
    TrailingLine(cfg, s, raw);
    StripLast(lines, raw);
    SwapNext(cfg, StripAll(lines), StripCr(raw));
    EncodesBlank(cfg, StripAll(lines));
    GapsSwap(cfg, text);
    FinalCompared(cfg, text, w, s);
    FinalCompared(cfg, text, TakeLine(cfg, w, raw, false), TakeLine(cfg, s, raw, false));
  }

  lemma {:induction false} NothingToStrip()
    ensures StripAll([]) == []
  {
  }

  lemma {:induction false} StripLast(lines: seq<Bytes>, raw: Bytes)
    ensures StripAll(lines + [raw]) == StripAll(lines) + [StripCr(raw)]
  {
    assert (lines + [raw])[..|lines|] == lines;
  }

  lemma {:induction false} EncodesBlank(cfg: Config, lines: seq<Bytes>)
    ensures AllEncode(cfg, lines) ==> AllEncode(cfg, lines + [[]])
  {
  }

  lemma {:induction false} FinalCompared(cfg: Config, lines: seq<Bytes>, w: Run, s: Run)
    ensures
      var swaps := cfg.isAsa && Swaps(cfg, lines);
      (w == Stopped && s == Stopped)
      || (w.Whole? && s.Streamed? && w.progress == s.progress
          && (if swaps then Differ(w.records, s.records) else w.records == s.records + Kept(s.prev)))
      ==>
      && (Finish(w).Failure? <==> Finish(s).Failure?)
      && (!Finish(w).Failure? ==> Finish(w).truncated == Finish(s).truncated)
      && (!Finish(w).Failure? ==> (Finish(w).records == Finish(s).records <==> !swaps))
  {
    hide Swaps;
    if w.Whole? && s.Streamed? && Differ(w.records, s.records) {
      DifferAppends(w.records, s.records, [], Kept(s.prev));
      assert w.records + [] == w.records;
    }
  }

  /** When the streamed path writes what the whole-string path writes. */
  ghost predicate Agreeing(cfg: Config, data: Bytes) {
    WriteAs(cfg, WHOLE, data).Failure? || !(cfg.isAsa && Swaps(cfg, TextLines(cfg, data)))
  }

  lemma {:induction false} AgreesWithWhole(cfg: Config, t: Bytes)
    ensures
      var data := Base64.Decode(t);
      data.Ok? ==>
        && Blockwise.Run(Base64.DecodeBlock, 4, t) == Some(data.bytes)
        && (WriteAs(cfg, STREAMED, data.bytes) == WriteAs(cfg, WHOLE, data.bytes) <==> Agreeing(cfg, data.bytes))
        && (!(cfg.isAsa && TripleGap(TextLines(cfg, data.bytes))) ==> Agreeing(cfg, data.bytes))
  {
    hide Base64.DecodeBlock, Blockwise.Run, WriteAs, TextLines, Swaps, TripleGap;
    var data := Base64.Decode(t);
    if data.Ok? { StreamedMatchesWhole(cfg, data.bytes); }
  }

  // ------------------------------------------------------------ the ASA member

  /** An empty triple-space record, as it is put before a line after many blank ones. */
  predicate IsOverflow(r: Asa.Record) {
    r.control == Asa.TRIPLE_SPACE && r.text == []
  }

  /** A printer record as bytes: its control character and its encoded text; overflow records are not encoded. */
  function RecordBytes(cfg: Config, r: Asa.Record): Bytes {
    [r.control] + if IsOverflow(r) then [] else match cfg.encode(r.text) case None => [] case Some(e) => e
  }

  function AllRecordBytes(cfg: Config, rs: seq<Asa.Record>): seq<Bytes> {
    if rs == [] then [] else AllRecordBytes(cfg, rs[..|rs| - 1]) + [RecordBytes(cfg, rs[|rs| - 1])]
  }

  lemma {:induction false} AllRecordBytesAppend(cfg: Config, a: seq<Asa.Record>, b: seq<Asa.Record>)
    ensures AllRecordBytes(cfg, a + b) == AllRecordBytes(cfg, a) + AllRecordBytes(cfg, b)
    decreases |b|
  {
    if b == [] {
      assert a + b == a && AllRecordBytes(cfg, a) + [] == AllRecordBytes(cfg, a);
    } else {
      var before, last := b[..|b| - 1], b[|b| - 1];
      AllRecordBytesAppend(cfg, a, before);
      assert (a + b)[..|a + b| - 1] == a + before && (a + b)[|a + b| - 1] == last;
    }
  }

  lemma {:induction false} OverflowBytes(cfg: Config, n: nat)
    ensures AllRecordBytes(cfg, Asa.Overflow(n)) == Dashes(n)
  {
    if n > 0 {
      OverflowBytes(cfg, n - 1);
      AppendDash(cfg, Asa.Overflow(n - 1));
    }
  }

  lemma {:induction false} AppendDash(cfg: Config, rs: seq<Asa.Record>)
    ensures AllRecordBytes(cfg, rs + [Asa.Record(Asa.TRIPLE_SPACE, [])]) ==
            AllRecordBytes(cfg, rs) + [[Asa.TRIPLE_SPACE]]
  {
    assert (rs + [Asa.Record(Asa.TRIPLE_SPACE, [])])[..|rs|] == rs;
    assert [Asa.TRIPLE_SPACE] + [] == [Asa.TRIPLE_SPACE];
  }

  lemma {:induction false} StepBytes(cfg: Config, blanks: nat, raw: Bytes)
    requires cfg.isAsa
    ensures
      var step := StepOf(cfg, blanks, raw, false);
      var adds := AllRecordBytes(cfg, Asa.Adds(Asa.Prepare(blanks, StripCr(raw))));
      && (step.Skipped? ==> adds == [])
      && (step.Emit? ==> adds == Dashes(step.overflow) + [step.record])
  {
    var p := Asa.Prepare(blanks, StripCr(raw));
    if p.Write? {
      var last := Asa.Record(p.control, p.text);
      assert !IsOverflow(last);
      OverflowBytes(cfg, p.overflow);
      AllRecordBytesAppend(cfg, Asa.Overflow(p.overflow), [last]);
      assert AllRecordBytes(cfg, [last]) == [RecordBytes(cfg, last)] by { assert [last][..0] == []; }
    }
  }

  lemma {:induction false} LinesConverted(cfg: Config, lines: seq<Bytes>)
    requires cfg.isAsa && TakeLines(cfg, WHOLE, lines).Whole?
    ensures var w, text := TakeLines(cfg, WHOLE, lines), StripAll(lines);
            w.records == AllRecordBytes(cfg, Asa.Converted(text)) && w.progress.blanks == Asa.Blanks(text)
  {
    if lines != [] {
      var before, raw := lines[..|lines| - 1], lines[|lines| - 1];
      LinesConverted(cfg, before);
      LineConverted(cfg, TakeLines(cfg, WHOLE, before), StripAll(before), raw);
    }
  }

  lemma {:induction false} LineConverted(cfg: Config, w: Run, text: seq<Bytes>, raw: Bytes)
    requires cfg.isAsa && w.Whole? && TakeLine(cfg, w, raw, false).Whole?
    requires w.records == AllRecordBytes(cfg, Asa.Converted(text)) && w.progress.blanks == Asa.Blanks(text)
    ensures var w', text' := TakeLine(cfg, w, raw, false), text + [StripCr(raw)];
            w'.records == AllRecordBytes(cfg, Asa.Converted(text')) && w'.progress.blanks == Asa.Blanks(text')
  {
    hide Asa.Converted, Asa.Blanks, AllRecordBytes, StripCr, Asa.Prepare, Asa.Adds, StepOf;
    var line, blanks := StripCr(raw), w.progress.blanks;
    var adds := Asa.Adds(Asa.Prepare(blanks, line));
    TextNext(text, line);
    StepBytes(cfg, blanks, raw);
    ConvertedNext(text, line);
    AllRecordBytesAppend(cfg, Asa.Converted(text), adds);
    var step := StepOf(cfg, blanks, raw, false);
    if step.Emit? {
      assert w.records + (Dashes(step.overflow) + [step.record]) == w.records + Dashes(step.overflow) + [step.record];
    } else {
      assert w.records + [] == w.records;
    }
  }

  lemma {:induction false} ConvertedNext(text: seq<Bytes>, line: Bytes)
    ensures Asa.Converted(text + [line]) == Asa.Converted(text) + Asa.Adds(Asa.Prepare(Asa.Blanks(text), line))
    ensures line == [] ==> Asa.Converted(text + [line]) == Asa.Converted(text)
  {
    assert (text + [line])[..|text|] == text;
    if line == [] { assert Asa.Converted(text) + [] == Asa.Converted(text); }
  }

  /**
   * An ASA member written from a whole string is the conversion of its lines, so a printer puts
   * every line of text on the page and row it has in the plain text.
   */
  lemma {:induction false} MemberKeepsPages(cfg: Config, data: Bytes)
    requires cfg.isAsa && !WriteAs(cfg, WHOLE, data).Failure?
    ensures var text := TextLines(cfg, data);
            && WriteAs(cfg, WHOLE, data).records == AllRecordBytes(cfg, Asa.Converted(text))
            && Asa.Printed(Asa.Converted(text)) == Asa.Rendered(text)
  {
    var lines, raw := Lines(cfg.newline, data), Remainder(cfg.newline, data);
    hide Lines, Remainder, TakeLine, TakeLines, StripCr, Asa.Converted, Asa.Blanks, AllRecordBytes, Asa.Printed,
      Asa.Rendered;
    var w := TakeLines(cfg, WHOLE, lines);
    WholeStaysWhole(cfg, lines, raw);
    assert (lines + [raw])[..|lines|] == lines;
    assert TextLines(cfg, data) == StripAll(lines) + [StripCr(raw)];
    LinesConverted(cfg, lines);
    TrailingLine(cfg, w, raw);
    ConvertedNext(StripAll(lines), StripCr(raw));
    if StripCr(raw) != [] { LineConverted(cfg, w, StripAll(lines), raw); }
    Asa.PrinterKeepsUp(TextLines(cfg, data));
  }

  lemma {:induction false} WholeStaysWhole(cfg: Config, lines: seq<Bytes>, raw: Bytes)
    ensures var w := TakeLines(cfg, WHOLE, lines);
            (w == Stopped || w.Whole?) && (TakeLine(cfg, w, raw, true).Stopped? || TakeLine(cfg, w, raw, true).Whole?)
            && (w == Stopped ==> TakeLine(cfg, w, raw, true) == Stopped)
  {
    WholeRuns(cfg, lines);
  }

  lemma {:induction false} WholeRuns(cfg: Config, lines: seq<Bytes>)
    ensures TakeLines(cfg, WHOLE, lines) == Stopped || TakeLines(cfg, WHOLE, lines).Whole?
  {
    if lines != [] { WholeRuns(cfg, lines[..|lines| - 1]); }
  }

  // ----------------------------------------------------------- the plain member

  /** Lines joined again, each with its newline. */
  function Join(nl: Byte, lines: seq<Bytes>): Bytes {
    if lines == [] then [] else lines[0] + [nl] + Join(nl, lines[1..])
  }

  ghost predicate NoNewlines(nl: Byte, lines: seq<Bytes>) {
    forall k :: 0 <= k < |lines| ==> nl !in lines[k]
  }

  /** Every text is lines and an unfinished rest. */
  lemma {:induction false} TextIsLines(nl: Byte, s: Bytes)
    ensures s == Join(nl, Lines(nl, s)) + Remainder(nl, s)
    ensures NoNewlines(nl, Lines(nl, s)) && nl !in Remainder(nl, s)
    decreases |s|
  {
    var k := Find(nl, s);
    hide Lines, Remainder, Find;
    if k == |s| {
      Unfinished(nl, s);
      NoLines(nl);
      assert [] + s == s;
    } else {
      FirstLine(nl, s, k);
      var first, more := s[..k], s[k + 1..];
      TextIsLines(nl, more);
      JoinFirst(nl, first, Lines(nl, more));
      assert s == first + [nl] + more;
      var x, y := Join(nl, Lines(nl, more)), Remainder(nl, more);
      assert first + [nl] + (x + y) == (first + [nl] + x) + y;
    }
  }

  lemma {:induction false} NoLines(nl: Byte)
    ensures Join(nl, []) == []
  {
  }

  lemma {:induction false} JoinFirst(nl: Byte, first: Bytes, more: seq<Bytes>)
    ensures Join(nl, [first] + more) == first + [nl] + Join(nl, more)
  {
    assert ([first] + more)[1..] == more;
  }

  /** And in no other way. */
  lemma {:induction false} LinesAreThese(nl: Byte, lines: seq<Bytes>, last: Bytes)
    requires NoNewlines(nl, lines) && nl !in last
    ensures Lines(nl, Join(nl, lines) + last) == lines && Remainder(nl, Join(nl, lines) + last) == last
    decreases |lines|
  {
    hide Lines, Remainder, Find;
    if lines == [] {
      NoLines(nl);
      assert Join(nl, lines) + last == last;
      NoFinish(nl, last);
    } else {
      var first, more := lines[0], lines[1..];
      assert lines == [first] + more;
      JoinFirst(nl, first, more);
      var s, rest := Join(nl, lines) + last, Join(nl, more) + last;
      assert s == first + [nl] + rest;
      assert s[..|first|] == first && s[|first|] == nl && s[|first| + 1..] == rest;
      FirstLine(nl, s, |first|);
      LinesAreThese(nl, more, last);
    }
  }

  lemma {:induction false} NoFinish(nl: Byte, s: Bytes)
    requires nl !in s
    ensures Lines(nl, s) == [] && Remainder(nl, s) == s
  {
  }

  /** The line is the text, perhaps with one carriage return at its end. */
  predicate Bare(line: Bytes, text: Bytes) {
    line == text + [CARRIAGE_RETURN] || (line == text && (text == [] || text[|text| - 1] != CARRIAGE_RETURN))
  }

  ghost predicate AllBare(lines: seq<Bytes>, texts: seq<Bytes>) {
    |lines| == |texts| && forall k :: 0 <= k < |lines| ==> Bare(lines[k], texts[k])
  }

  /** One record for each text, which is its encoding. */
  ghost predicate EncodedAs(cfg: Config, texts: seq<Bytes>, records: seq<Bytes>) {
    |records| == |texts| && forall k :: 0 <= k < |texts| ==> cfg.encode(texts[k]) == Some(records[k])
  }

  /** In ascending order the numbers, counted from 1, of the records that are too long. */
  ghost predicate TooLong(maxLen: int, records: seq<Bytes>, numbers: seq<nat>) {
    && (forall i, j :: 0 <= i < j < |numbers| ==> numbers[i] < numbers[j])
    && (forall i :: 0 <= i < |numbers| ==> 1 <= numbers[i] <= |records|)
    && forall k :: 0 <= k < |records| ==> (k + 1 in numbers <==> |records[k]| > maxLen)
  }

  ghost predicate Encodable(cfg: Config, texts: seq<Bytes>) {
    forall k :: 0 <= k < |texts| ==> cfg.encode(texts[k]).Some?
  }

  /** What a run over plain lines has come to. */
  ghost predicate Plain(cfg: Config, texts: seq<Bytes>, w: Run) {
    if Encodable(cfg, texts) then
      && w.Whole? && w.progress.lineNum == |texts|
      && EncodedAs(cfg, texts, w.records) && TooLong(cfg.maxLen, w.records, w.progress.truncated)
    else w.Stopped?
  }

  lemma {:induction false} BareIsStripped(line: Bytes, text: Bytes)
    requires Bare(line, text)
    ensures StripCr(line) == text
  {
  }

  lemma {:induction false} PlainLine(cfg: Config, texts: seq<Bytes>, w: Run, raw: Bytes, text: Bytes)
    requires !cfg.isAsa && Plain(cfg, texts, w) && Bare(raw, text)
    ensures Plain(cfg, texts + [text], TakeLine(cfg, w, raw, false))
  {
    hide TooLong, EncodedAs, Encodable;
    BareIsStripped(raw, text);
    EncodableNext(cfg, texts, text);
    if Encodable(cfg, texts) && cfg.encode(text).Some? {
      var record := cfg.encode(text).value;
      assert [] + record == record && w.records + [] == w.records;
      EncodedNext(cfg, texts, w.records, text);
      TooLongNext(cfg.maxLen, w.records, w.progress.truncated, record);
    }
  }

  lemma {:induction false} EncodableNext(cfg: Config, texts: seq<Bytes>, text: Bytes)
    ensures Encodable(cfg, texts + [text]) <==> Encodable(cfg, texts) && cfg.encode(text).Some?
  {
    var more := texts + [text];
    assert forall k :: 0 <= k < |texts| ==> more[k] == texts[k];
    assert more[|texts|] == text;
  }

  lemma {:induction false} EncodedNext(cfg: Config, texts: seq<Bytes>, records: seq<Bytes>, text: Bytes)
    requires EncodedAs(cfg, texts, records) && cfg.encode(text).Some?
    ensures EncodedAs(cfg, texts + [text], records + [cfg.encode(text).value])
  {
  }

  lemma {:induction false} TooLongNext(maxLen: int, records: seq<Bytes>, numbers: seq<nat>, record: Bytes)
    requires TooLong(maxLen, records, numbers)
    ensures TooLong(maxLen, records + [record], if |record| > maxLen then numbers + [|records| + 1] else numbers)
  {
    var more := if |record| > maxLen then numbers + [|records| + 1] else numbers;
    forall k | 0 <= k < |records| + 1 ensures k + 1 in more <==> |(records + [record])[k]| > maxLen {
      if k + 1 in numbers { assert k < |records|; }
    }
  }

  lemma {:induction false} PlainLines(cfg: Config, lines: seq<Bytes>, texts: seq<Bytes>)
    requires !cfg.isAsa && AllBare(lines, texts)
    ensures Plain(cfg, texts, TakeLines(cfg, WHOLE, lines))
    decreases |lines|
  {
    hide Plain, TakeLine, Bare, TakeLines;
    if lines == [] {
      NoLinesYet(cfg, WHOLE);
      PlainStart(cfg);
      assert texts == [];
    } else {
      var n := |lines| - 1;
      assert lines == lines[..n] + [lines[n]] && texts == texts[..n] + [texts[n]];
      PlainLines(cfg, lines[..n], texts[..n]);
      TakeNext(cfg, WHOLE, lines[..n], lines[n]);
      PlainLine(cfg, texts[..n], TakeLines(cfg, WHOLE, lines[..n]), lines[n], texts[n]);
    }
  }

  lemma {:induction false} PlainStart(cfg: Config)
    ensures Plain(cfg, [], WHOLE)
  {
  }

  /**
   * A member that is not ASA has one record for each line of its text, blank ones included, in order,
   * and one for an unfinished last line unless that is empty: the line without its carriage return,
   * encoded. The write fails exactly if one of them cannot be encoded, and reports exactly the numbers
   * of the records that are too long. The streamed path writes the same.
   */
  lemma {:induction false} PlainMemberKeepsLines(
      cfg: Config, lines: seq<Bytes>, last: Bytes, texts: seq<Bytes>, lastText: Bytes)
    requires !cfg.isAsa && NoNewlines(cfg.newline, lines) && cfg.newline !in last
    requires AllBare(lines, texts) && Bare(last, lastText)
    ensures var all := if lastText == [] then texts else texts + [lastText];
            var w := WriteAs(cfg, WHOLE, Join(cfg.newline, lines) + last);
            && (w.Written? <==> Encodable(cfg, all))
            && (w.Written? ==> EncodedAs(cfg, all, w.records) && TooLong(cfg.maxLen, w.records, w.truncated))
            && WriteAs(cfg, STREAMED, Join(cfg.newline, lines) + last) == w
  {
    hide Lines, Remainder, TakeLine, TakeLines, Plain, Bare, TextLines, Swaps, TripleGap, KeepsText;
    var data := Join(cfg.newline, lines) + last;
    var w := TakeLines(cfg, WHOLE, lines);
    LinesAreThese(cfg.newline, lines, last);
    PlainLines(cfg, lines, texts);
    TrailingLine(cfg, w, last);
    BareIsStripped(last, lastText);
    PlainLine(cfg, texts, w, last, lastText);
    StreamedMatchesWhole(cfg, data);
    PlainFinish(cfg, texts, w);
    PlainFinish(cfg, texts + [lastText], TakeLine(cfg, w, last, false));
  }

  lemma {:induction false} PlainFinish(cfg: Config, texts: seq<Bytes>, w: Run)
    requires Plain(cfg, texts, w)
    ensures var r := Finish(w);
            && (r.Written? <==> Encodable(cfg, texts))
            && (r.Written? ==> EncodedAs(cfg, texts, r.records) && TooLong(cfg.maxLen, r.records, r.truncated))
  {
    hide Encodable, EncodedAs, TooLong;
  }

  // ------------------------------------------------------- truncated lines of an ASA member

  /** The records of the lines of text, overflow records left aside. */
  function TextRecords(cfg: Config, lines: seq<Bytes>): seq<Bytes> {
    if lines == [] then []
    else
      var before, last := lines[..|lines| - 1], lines[|lines| - 1];
      TextRecords(cfg, before) + if last == [] then [] else [RecordFor(cfg, Asa.Blanks(before), last)]
  }

  ghost predicate AsaCounted(cfg: Config, lines: seq<Bytes>, w: Run) {
    w == Stopped
    || (&& w.Whole? && w.progress.blanks == Asa.Blanks(lines) && w.progress.lineNum == |TextRecords(cfg, lines)|
        && TooLong(cfg.maxLen, TextRecords(cfg, lines), w.progress.truncated))
  }

  lemma {:induction false} TextRecordsNext(cfg: Config, lines: seq<Bytes>, line: Bytes)
    ensures TextRecords(cfg, lines + [line]) ==
            TextRecords(cfg, lines) + if line == [] then [] else [RecordFor(cfg, Asa.Blanks(lines), line)]
  {
    hide RecordFor, Asa.Blanks;
    assert (lines + [line])[..|lines|] == lines;
  }

  lemma {:induction false} AsaLine(cfg: Config, lines: seq<Bytes>, w: Run, raw: Bytes)
    requires cfg.isAsa && AsaCounted(cfg, lines, w)
    ensures AsaCounted(cfg, lines + [StripCr(raw)], TakeLine(cfg, w, raw, false))
  {
    hide TooLong, TextRecords, Asa.Blanks, StripCr, RecordFor, StepOf;
    if w != Stopped {
      var line, blanks := StripCr(raw), w.progress.blanks;
      AsaStep(cfg, blanks, raw, false);
      AsaLong(cfg, blanks, raw);
      TextNext(lines, line);
      TextRecordsNext(cfg, lines, line);
      var records := TextRecords(cfg, lines);
      assert records + [] == records;
      TooLongNext(cfg.maxLen, records, w.progress.truncated, RecordFor(cfg, blanks, line));
    }
  }

  lemma {:induction false} AsaLong(cfg: Config, blanks: nat, raw: Bytes)
    requires cfg.isAsa
    ensures var step := StepOf(cfg, blanks, raw, false); step.Emit? ==> (step.long <==> |step.record| > cfg.maxLen)
  {
    hide StripCr;
  }

  lemma {:induction false} AsaLines(cfg: Config, lines: seq<Bytes>)
    requires cfg.isAsa
    ensures AsaCounted(cfg, StripAll(lines), TakeLines(cfg, WHOLE, lines))
    decreases |lines|
  {
    hide TakeLine, StripCr, AsaCounted, TakeLines, StripAll;
    if lines == [] {
      NothingToStrip();
      NoLinesYet(cfg, WHOLE);
      AsaStart(cfg);
    } else {
      var before, last := lines[..|lines| - 1], lines[|lines| - 1];
      assert lines == before + [last];
      AsaLines(cfg, before);
      TakeNext(cfg, WHOLE, before, last);
      StripLast(before, last);
      AsaLine(cfg, StripAll(before), TakeLines(cfg, WHOLE, before), last);
    }
  }

  lemma {:induction false} AsaStart(cfg: Config)
    ensures AsaCounted(cfg, [], WHOLE)
  {
  }

  /** An ASA member reports exactly the lines of text, counted from 1, whose record is too long, control included. */
  lemma {:induction false} AsaTruncation(cfg: Config, data: Bytes)
    requires cfg.isAsa && WriteAs(cfg, WHOLE, data).Written?
    ensures TooLong(cfg.maxLen, TextRecords(cfg, TextLines(cfg, data)), WriteAs(cfg, WHOLE, data).truncated)
  {
    hide Lines, Remainder, TakeLine, TakeLines, StripCr, StripAll, TooLong, TextRecords, Asa.Blanks;
    var lines, raw := Lines(cfg.newline, data), Remainder(cfg.newline, data);
    var w := TakeLines(cfg, WHOLE, lines);
    AsaLines(cfg, lines);
    AsaLine(cfg, StripAll(lines), w, raw);
    TrailingLine(cfg, w, raw);
    StripLast(lines, raw);
    TextRecordsNext(cfg, StripAll(lines), StripCr(raw));
    assert TextRecords(cfg, StripAll(lines)) + [] == TextRecords(cfg, StripAll(lines));
  }

  // ---------------------------------------------------- a member that comes out differently

  /** With an encoder that never fails, no write fails. */
  lemma {:induction false} NeverStops(cfg: Config, lines: seq<Bytes>)
    requires forall t :: cfg.encode(t).Some?
    ensures TakeLines(cfg, WHOLE, lines).Whole?
  {
    if lines != [] {
      NeverStops(cfg, lines[..|lines| - 1]);
    }
  }

  /** One letter, three blank lines and another letter: the streamed order is not the whole order. */
  lemma {:induction false} StreamedReordersExample()
    ensures
      var cfg := Config(true, 80, NEW_LINE, t => Some(t));
      var data := [0x81, NEW_LINE, NEW_LINE, NEW_LINE, NEW_LINE, 0x82];
      var w, s := WriteAs(cfg, WHOLE, data), WriteAs(cfg, STREAMED, data);
      w.Written? && s.Written? && w.records != s.records
  {
    var cfg := Config(true, 80, NEW_LINE, t => Some(t));
    var data := [0x81, NEW_LINE, NEW_LINE, NEW_LINE, NEW_LINE, 0x82];
    NeverStops(cfg, Lines(NEW_LINE, data));
    StreamedMatchesWhole(cfg, data);
    GapLines(data);
    var text := StripAll([[0x81], [], [], [], [0x82]]);
    StripGap();
    assert GapAt(text, 0, 4);
  }

  lemma {:induction false} GapLines(data: Bytes)
    requires data == [0x81, NEW_LINE, NEW_LINE, NEW_LINE, NEW_LINE, 0x82]
    ensures Lines(NEW_LINE, data) + [Remainder(NEW_LINE, data)] == [[0x81], [], [], [], [0x82]]
  {
    hide Lines, Remainder, Find;
    FirstLine(NEW_LINE, data, 1);
    assert data[..1] == [0x81] && data[2..] == [NEW_LINE, NEW_LINE, NEW_LINE, 0x82];
    BlankLine([NEW_LINE, NEW_LINE, 0x82]);
    BlankLine([NEW_LINE, 0x82]);
    BlankLine([0x82]);
    NoFinish(NEW_LINE, [0x82]);
    assert data[2..] == [NEW_LINE] + [NEW_LINE, NEW_LINE, 0x82];
    assert [NEW_LINE, NEW_LINE, 0x82] == [NEW_LINE] + [NEW_LINE, 0x82];
    assert [NEW_LINE, 0x82] == [NEW_LINE] + [0x82];
  }

  lemma {:induction false} BlankLine(rest: Bytes)
    ensures Lines(NEW_LINE, [NEW_LINE] + rest) == [[]] + Lines(NEW_LINE, rest)
    ensures Remainder(NEW_LINE, [NEW_LINE] + rest) == Remainder(NEW_LINE, rest)
  {
    FirstLine(NEW_LINE, [NEW_LINE] + rest, 0);
    assert ([NEW_LINE] + rest)[1..] == rest && ([NEW_LINE] + rest)[..0] == [];
  }

  lemma {:induction false} StripGap()
    ensures StripAll([[0x81], [], [], [], [0x82]]) == [[0x81], [], [], [], [0x82]]
  {
    var l: seq<Bytes> := [[0x81], [], [], [], [0x82]];
    StripNothing(l);
  }

  lemma {:induction false} StripNothing(lines: seq<Bytes>)
    requires forall k :: 0 <= k < |lines| ==> StripCr(lines[k]) == lines[k]
    ensures StripAll(lines) == lines
  {
    hide StripCr, StripAll;
    if lines == [] { NothingToStrip(); }
    if lines != [] {
      var before, last := lines[..|lines| - 1], lines[|lines| - 1];
      assert lines == before + [last];
      StripLast(before, last);
      StripNothing(before);
    }
  }
}
