/**
 * Bytes and the eight command bytes of the language.
 * The program text, the tape cells, the input and the output are all
 * sequences of unsigned 8-bit values.
 */
module Syntax {

  /** An unsigned 8-bit value (`unsigned char`). */
  type byte = x: int | 0 <= x < 256

  const RIGHT: byte := 62   // '>'
  const LEFT: byte := 60    // '<'
  const INC: byte := 43     // '+'
  const DEC: byte := 45     // '-'
  const OUT: byte := 46     // '.'
  const IN: byte := 44      // ','
  const OPEN: byte := 91    // '['
  const CLOSE: byte := 93   // ']'

  /** The command alphabet "><+-.,[]", in the order the filter tries it. */
  const ID: seq<byte> := [RIGHT, LEFT, INC, DEC, OUT, IN, OPEN, CLOSE]

  /** A byte the filter keeps; every other byte is a comment. */
  predicate IsCommand(c: byte) {
    c in ID
  }
}
