# chip8gui: presentation layer of a CHIP-8 emulator, in Dafny

chip8gui puts a CHIP-8 emulator in a 1920×960 window. Each frame it does
two things. It copies the host keyboard into the emulator's sixteen-key
keypad (`check_key_input`). It also turns the emulator's packed monochrome
frame into a row-major buffer of 32-bit colours (`display_buffer`). In that
frame, every byte holds eight pixels with the most significant bit
leftmost, and eight bytes make one 64-pixel row. Each pixel is magnified by
a uniform integer factor `scaler`: the largest one at which the magnified
frame still fits in the window area.

The project has five modules:

- `Emulator` (emulator.dfy). The machine state the presentation layer
  touches. This is a class `Chip8Sys` with the keypad array `keys` and the
  packed `frameBuffer`.
- `Display` (display.dfy). The scale factor and a reference definition of
  the expanded frame (`Expand`). It also holds the renderer written as the
  source's two nested loops (`DisplayBuffer`, `AppendByte`), proved equal to
  `Expand`. Lemmas about `Expand` cover:
  - its size;
  - where every window pixel comes from;
  - the two colours;
  - the dropped trailing partial row;
  - row-by-row growth.
- `Keypad` (keypad.dfy). The key table and `CheckKeyInput`, which
  overwrites the keypad array in place. `KeysFor` is the keypad state a set
  of held host keys should produce, and lemmas cover it.
- `Seqs` (seqs.dfy). Filling, concatenating and repeating vectors
  (`vec![x; n]`, `append`, `vec![v; n].concat()`).
- `Arith` (arith.dfy). Division, remainder and monotonicity facts for the
  pixel-index arithmetic.

## Model

| member | source | states |
|---|---|---|
| `Display.DisplayBuffer` | src/lib.rs:93-126 | The nested loops return exactly `Expand(frame, Scaler(len))`: every complete 8-byte row, magnified, written `scaler` times, in order. Bytes after the last complete row never appear. |
| `Display.AppendByte` | src/lib.rs:107-117 | Testing a byte against a mask that starts at 0b1000_0000 and is halved eight times appends the byte's eight runs, most significant bit first, to the row being built. |
| `Display.MaskTest` | src/lib.rs:108-116 | `pixel & power_2 == power_2`, with `power_2` the k-th halving of 0x80, holds exactly when bit 7 - k of the byte is set. |
| `Display.Scaler` | src/lib.rs:94-98 | For a non-empty frame, `scaler` is the largest s with s·s·(8·len) ≤ WIDTH·HEIGHT, i.e. floor(sqrt(WIDTH·HEIGHT / (8·len))). An empty frame gives the saturated `usize::MAX`. |
| `Display.FloorSqrtRatio` | src/lib.rs:96-98 | The integer floor square root of area / pixels: s fits and s + 1 does not. |
| `Display.ScalerIsLargest` | src/lib.rs:94-98 | Every magnification that fits in the window is at most `scaler`. |
| `Display.StandardScaler` | src/lib.rs:9-10 | The 256-byte frame in the 640·3 × 320·3 window is magnified 30 times. |
| `Display.StandardFrameFillsWindow` | src/lib.rs:94-98 | At that scale the 256-byte frame fills the 1920×960 window exactly. |
| `Display.ScaledFrameFits` | src/lib.rs:94-98 | For any non-empty frame of whole rows, the buffer at the computed scale is no larger than the window. |
| `Display.ExpandLength` | src/lib.rs:118-123 | Each complete row contributes s rows of 64·s pixels. A frame of whole rows gives s·s·8 pixels per byte. |
| `Display.BitRunsAt` | src/lib.rs:109-116 | Pixel t of the run for bit position p, counted from the left, has the colour of bit 7 - p. |
| `Display.RowPixelsAt` | src/lib.rs:107-117 | Within a row, the pixels of byte q follow those of the earlier bytes, in order. |
| `Display.RowsAt` | src/lib.rs:118-123 | Source row r occupies band r of the buffer. Rows are appended in frame order. |
| `Display.RowPixelBit` | src/lib.rs:107-117 | Inside one row: pixel t of bit p of byte q has the colour of that bit. |
| `Display.ExpandBlockPixel` | src/lib.rs:107-123 | Closed form in block coordinates: window row a of band r, byte q, bit position p, pixel t shows bit 7 - p of byte 8r + q. |
| `Display.ExpandPixel` | src/lib.rs:107-123 | Window pixel (x, y), at index y·64s + x, shows source pixel (x / s, y / s): bit 7 - (x/s)%8 of byte 8·(y/s) + (x/s)/8. |
| `Display.Locate` | src/lib.rs:107-123 | Every buffer index lies in exactly such a block position inside a complete source row. |
| `Display.TwoColors` | src/lib.rs:110-114 | Every pixel of the buffer is ON or OFF. |
| `Display.BlankFrameIsOff` | src/lib.rs:110-114 | A frame of zero bytes shows only the OFF colour 0x3D521E. |
| `Display.FullFrameIsOn` | src/lib.rs:110-114 | A frame of 0xFF bytes shows only the ON colour 0x80B039. |
| `Display.HighBitIsLeftmost` | src/lib.rs:108-116 | With first byte 0x80, the first s pixels of the top row are ON and the next 7·s are OFF. The most significant bit is drawn leftmost. |
| `Display.ScalingConsistency` | src/lib.rs:111-121 | Magnification preserves content: pixel (x, y) at scale s equals pixel (x/s, y/s) at scale 1. |
| `Display.TrailingBytesIgnored` | src/lib.rs:120-125 | The buffer for a frame equals the buffer for its complete rows alone. A trailing partial row is dropped. |
| `Display.RowsPrefix` | src/lib.rs:118-123 | The first n bands depend only on the first 8n bytes. |
| `Display.AppendRow` | src/lib.rs:118-123 | Appending one 8-byte row to a frame of whole rows appends that row's magnified pixels s times to the buffer. |
| `Keypad.CheckKeyInput` | src/lib.rs:73-89 | Every one of the sixteen keypad slots is overwritten with whether its host key is held. Slot i follows host key KEYMAP[i]. Only `keys` changes. |
| `Keypad.SlotOfInverse` | src/lib.rs:73-89 | The table maps the sixteen logical keys one-to-one onto X,1,2,3,Q,W,E,A,S,D,Z,C,4,R,F,V. Escape is the only host key without a slot. |
| `Keypad.KeymapInjective` | src/lib.rs:73-89 | No host key drives two slots. |
| `Keypad.SlotReflectsKey` | src/lib.rs:73-89 | The slot of a mapped host key is set exactly when that key is held. |
| `Keypad.SingleKey` | src/lib.rs:73-89 | Holding one mapped key alone sets its slot and clears every other slot. |
| `Keypad.HoldingW` | src/lib.rs:79 | Holding W alone sets logical key 5 and nothing else. |
| `Keypad.NoKeysHeld` | src/lib.rs:73-89 | With no key held every slot is cleared. Stale presses do not survive. |
| `Keypad.OnlyMappedKeysMatter` | src/lib.rs:73-89 | Host keys outside the table, such as Escape, have no effect on the keypad. |

## Left out

- The `main` loop (src/lib.rs:18-72) is not modelled. This covers window creation, audio, ROM loading, the Escape-to-quit test, the frame rate and `game.run()`: they are I/O and foreign calls.
- The `Chip8Sys` type comes from the separate `chip8sys` crate, which is not part of this model. `Emulator.Chip8Sys` keeps only the two fields read or written here, `keys` and `frame_buffer`. Its 256-byte frame size and sixteen keys are taken from that crate's documented layout.
- The quirk flags `INC_INDEX`, `VF_RESET`, `WRAP_DRAW` and `MOD_VX_IN_PLACE` (src/lib.rs:13-16) only configure the emulator core, and nothing here reads them.
- src/main.rs only starts the GUI loop, and it is left out with the `main` loop.
- `Display.Scaler`: the source computes `sqrt` and `floor` in `f64` and then casts to `usize`. The model uses the exact integer floor square root. The two can differ only where `f64` rounding misplaces a perfect square. They agree at the standard 256-byte frame, whose exact root is 30.
- `Display.Scaler`: for an empty frame the source divides by zero in `f64`, and the saturating cast gives `usize::MAX`. The model returns that value. No pixel is ever produced, because the loop has no iterations.
- `Display.DisplayBuffer` takes its frame as a value: `&mut Chip8Sys` is only read, and the method's frame is the current `frameBuffer`.
- `Keypad.CheckKeyInput`: the host keyboard (`window.is_key_down`) is a parameter, the set `held` of keys that are down at the moment of polling. The source makes sixteen separate writes. The model makes them as one simultaneous assignment over the key table. The final array is the same, but the order of the writes is not captured.
- Where the project documentation and the code differ, the model follows the code:
  - the keypad is a `[bool; 16]` array, not a 16-bit mask;
  - an empty frame gives a saturated scale factor rather than an error;
  - the window is 1920×960, not the 1280×640 named in the comment above `display_buffer`.
