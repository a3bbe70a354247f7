/** The emulator core's machine state, cut down to the two fields the
    presentation layer reads and writes: the keypad state it fills in before
    every tick, and the packed monochrome frame it turns into pixels. */
module Emulator {

  /** Width and height of the logical raster, in source pixels. */
  const SCREEN_WIDTH: nat := 64
  const SCREEN_HEIGHT: nat := 32
  /** Bytes in a packed frame: 8 pixels per byte, 8 bytes per row. */
  const FRAME_BYTES: nat := SCREEN_WIDTH / 8 * SCREEN_HEIGHT
  /** Number of logical keypad keys, 0 through F. */
  const KEY_COUNT: nat := 16

  class Chip8Sys {
    /** Held state of each logical key 0..F (a `[bool; 16]`). */
    const keys: array<bool>
    /** The packed frame: row-major, most significant bit leftmost. */
    var frameBuffer: seq<bv8>

    ghost predicate Valid()
      reads this
    {
      keys.Length == KEY_COUNT
    }

    /** A machine with a blank screen and no key held. */
    constructor ()
      ensures Valid() && fresh(keys)
      ensures |frameBuffer| == FRAME_BYTES && forall i :: 0 <= i < FRAME_BYTES ==> frameBuffer[i] == 0
      ensures forall i :: 0 <= i < KEY_COUNT ==> !keys[i]
    {
      keys := new bool[KEY_COUNT](_ => false);
      frameBuffer := seq(FRAME_BYTES, _ => 0);
    }
  }
}
