/**
 * Conversion of text lines to ASA records: blank lines become spacing in the control
 * character of the next line, form feeds become page skips.
 */
module Asa {
  import opened Native

  const SINGLE_SPACE: Byte := 0x40
  const DOUBLE_SPACE: Byte := 0xF0
  const TRIPLE_SPACE: Byte := 0x60
  const NEXT_PAGE: Byte := 0xF1

  /** What becomes of a line: counted as blank, or written after some empty triple-space records. */
  datatype Prepared = Skip | Write(overflow: nat, control: Byte, text: Bytes)

  predicate StartsPage(line: Bytes) {
    line != [] && line[0] == FORM_FEED
  }

  /** The line without its leading form feed. */
  function Text(line: Bytes): Bytes {
    if StartsPage(line) then line[1..] else line
  }

  function Prepare(blanks: nat, line: Bytes): Prepared {
    if line == [] then Skip
    else Write(blanks / 3,
               if StartsPage(line) then NEXT_PAGE
               else if blanks % 3 == 1 then DOUBLE_SPACE
               else if blanks % 3 == 2 then TRIPLE_SPACE
               else SINGLE_SPACE,
               Text(line))
  }

  function BlanksAfter(blanks: nat, line: Bytes): nat {
    if line == [] then blanks + 1 else 0
  }

  /** The state kept across lines. */
  class AsaStreamState {
    var blankCount: nat

    constructor ()
      ensures blankCount == 0
    {
      blankCount := 0;
    }

    /** Each overflow record spends three of the counted blanks; at most two are left for the control. */
    method PrepareLine(line: Bytes) returns (r: Prepared)
      modifies this
      ensures r == Prepare(old(blankCount), line)
      ensures blankCount == BlanksAfter(old(blankCount), line)
    {
      var hasFormFeed := line != [] && line[0] == FORM_FEED;
      var content := line;
      if hasFormFeed { content := line[1..]; }
      if content == [] && !hasFormFeed {
        blankCount := blankCount + 1;
        return Skip;
      }
      var overflow := 0;
      while blankCount >= 3
        invariant 3 * overflow + blankCount == old(blankCount)
      {
        blankCount := blankCount - 3;
        overflow := overflow + 1;
      }
      var control := SINGLE_SPACE;
      if hasFormFeed { control := NEXT_PAGE; }
      else if blankCount == 1 { control := DOUBLE_SPACE; }
      else if blankCount == 2 { control := TRIPLE_SPACE; }
      blankCount := 0;
      return Write(overflow, control, content);
    }
  }

  // ---------------------------------------------------------------- rendering

  /** A place on paper. */
  datatype Place = Place(page: nat, row: nat)

  /** Some text at a place. */
  datatype Mark = Mark(place: Place, text: Bytes)

  const TOP := Place(1, 0)

  /** Plain text: each line is one row down, a form feed starts the next page. */
  function NextLine(at: Place, line: Bytes): Place {
    if StartsPage(line) then Place(at.page + 1, 1) else Place(at.page, at.row + 1)
  }

  function PlaceAfter(lines: seq<Bytes>): Place {
    if lines == [] then TOP else NextLine(PlaceAfter(lines[..|lines| - 1]), lines[|lines| - 1])
  }

  /** What plain text puts on paper; blank rows leave no mark. */
  function Rendered(lines: seq<Bytes>): seq<Mark> {
    if lines == [] then [] else
      Rendered(lines[..|lines| - 1]) + MarkOf(PlaceAfter(lines), Text(lines[|lines| - 1]))
  }

  function MarkOf(at: Place, text: Bytes): seq<Mark> {
    if text == [] then [] else [Mark(at, text)]
  }

  /** The printer's reading of a control character, before the record is printed. */
  function Space(at: Place, control: Byte): Place {
    if control == NEXT_PAGE then Place(at.page + 1, 1)
    else Place(at.page, at.row + if control == DOUBLE_SPACE then 2 else if control == TRIPLE_SPACE then 3 else 1)
  }

  /** A record: a control character, then text. */
  datatype Record = Record(control: Byte, text: Bytes)

  function PrinterAfter(records: seq<Record>): Place {
    if records == [] then TOP
    else Space(PrinterAfter(records[..|records| - 1]), records[|records| - 1].control)
  }

  function Printed(records: seq<Record>): seq<Mark> {
    if records == [] then [] else
      Printed(records[..|records| - 1]) + MarkOf(PrinterAfter(records), records[|records| - 1].text)
  }

  // --------------------------------------------------------------- conversion

  function Blanks(lines: seq<Bytes>): nat {
    if lines == [] then 0 else BlanksAfter(Blanks(lines[..|lines| - 1]), lines[|lines| - 1])
  }

  /** The records a prepared line adds. */
  function Adds(p: Prepared): seq<Record> {
    match p
    case Skip => []
    case Write(overflow, control, text) => Overflow(overflow) + [Record(control, text)]
  }

  function Overflow(n: nat): seq<Record> {
    if n == 0 then [] else Overflow(n - 1) + [Record(TRIPLE_SPACE, [])]
  }

  function Converted(lines: seq<Bytes>): seq<Record> {
    if lines == [] then [] else
      var before := lines[..|lines| - 1];
      Converted(before) + Adds(Prepare(Blanks(before), lines[|lines| - 1]))
  }

  lemma {:induction false} PrintedNext(records: seq<Record>, r: Record)
    ensures PrinterAfter(records + [r]) == Space(PrinterAfter(records), r.control)
    ensures Printed(records + [r]) == Printed(records) + MarkOf(PrinterAfter(records + [r]), r.text)
  {
    assert (records + [r])[..|records|] == records;
  }

  /** Overflow records move the printer three rows each and print nothing. */
  lemma {:induction false} OverflowSpaces(records: seq<Record>, n: nat)
    ensures var at := PrinterAfter(records); PrinterAfter(records + Overflow(n)) == Place(at.page, at.row + 3 * n)
    ensures Printed(records + Overflow(n)) == Printed(records)
  {
    hide PrinterAfter, Printed;
    if n == 0 {
      assert records + [] == records && Overflow(0) == [];
    } else {
      OverflowSpaces(records, n - 1);
      PrintedNext(records + Overflow(n - 1), Record(TRIPLE_SPACE, []));
      assert records + Overflow(n) == records + Overflow(n - 1) + [Record(TRIPLE_SPACE, [])];
    }
  }

  /**
   * The printer is behind plain text by exactly the blanks counted so far, on the same page;
   * every non-empty line is printed on the page and row it has in the plain text, and nothing else is.
   */
  lemma {:induction false} PrinterKeepsUp(lines: seq<Bytes>)
    ensures var p, q := PlaceAfter(lines), PrinterAfter(Converted(lines));
            p.page == q.page && p.row == q.row + Blanks(lines)
    ensures Printed(Converted(lines)) == Rendered(lines)
  {
    if lines != [] {
      var before, line := lines[..|lines| - 1], lines[|lines| - 1];
      PrinterKeepsUp(before);
      AddsKeepUp(Converted(before), PlaceAfter(before), Blanks(before), line);
    }
  }

  lemma {:induction false} AddsKeepUp(records: seq<Record>, at: Place, blanks: nat, line: Bytes)
    requires PrinterAfter(records).page == at.page && PrinterAfter(records).row + blanks == at.row
    ensures
      var more := records + Adds(Prepare(blanks, line));
      var p, q := NextLine(at, line), PrinterAfter(more);
      && p.page == q.page && p.row == q.row + BlanksAfter(blanks, line)
      && Printed(more) == Printed(records) + MarkOf(p, Text(line))
  {
    hide PrinterAfter, Printed, Overflow;
    var prepared := Prepare(blanks, line);
    if prepared.Write? {
      var last := Record(prepared.control, prepared.text);
      var spaced := records + Overflow(prepared.overflow);
      OverflowSpaces(records, prepared.overflow);
      PrintedNext(spaced, last);
      assert records + Adds(prepared) == spaced + [last];
      assert blanks == 3 * (blanks / 3) + blanks % 3;
    } else {
      assert records + [] == records;
    }
  }
}
