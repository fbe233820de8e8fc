/** Native bytes: the z/OS executables work on 8-bit characters in code page IBM-1047. */
module Native {
  type Byte = b: int | 0 <= b < 256
  type Bytes = seq<Byte>

  const NUL: Byte := 0x00
  const TAB: Byte := 0x05
  const FORM_FEED: Byte := 0x0C
  const CARRIAGE_RETURN: Byte := 0x0D
  const NEW_LINE: Byte := 0x15
  const BACKSPACE: Byte := 0x16
  const BLANK: Byte := 0x40
  const PLUS: Byte := 0x4E
  const STAR: Byte := 0x5C
  const MINUS: Byte := 0x60
  const SLASH: Byte := 0x61
  const QUESTION: Byte := 0x6F
  const EQUALS: Byte := 0x7E
  const QUOTE: Byte := 0x7F
  const BACKSLASH: Byte := 0xE0
  const DIGIT_ZERO: Byte := 0xF0
  const DIGIT_ONE: Byte := 0xF1

  /** `iscntrl` in IBM-1047. */
  predicate IsCntrl(b: Byte) {
    b < 0x40 || b == 0xFF
  }

  datatype Option<+T> = None | Some(value: T)

  /** All the parts one after the other. */
  function Concat<T>(parts: seq<seq<T>>): seq<T> {
    if parts == [] then [] else Concat(parts[..|parts| - 1]) + parts[|parts| - 1]
  }

  lemma {:induction false} ConcatNext<T>(parts: seq<seq<T>>, k: nat)
    requires k < |parts|
    ensures Concat(parts[..k + 1]) == Concat(parts[..k]) + parts[k]
  {
    assert parts[..k + 1][..k] == parts[..k];
  }
}
