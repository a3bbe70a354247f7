/** Expansion of the emulator's packed monochrome frame into the window's
    row-major buffer of 32-bit colours (`display_buffer` in src/lib.rs). */
module Display {
  import opened Arith
  import opened Seqs
  import opened Emulator

  newtype u32 = x: int | 0 <= x < 0x1_0000_0000

  const PIXEL_COLOR_OFF: u32 := 0x3D521E
  const PIXEL_COLOR_ON: u32 := 0x80B039
  /** Window size in screen pixels. */
  const WIDTH: nat := 640 * 3
  const HEIGHT: nat := 320 * 3
  /** What a +infinity `f64` saturates to when cast to `usize`. */
  const USIZE_MAX: nat := 0xFFFF_FFFF_FFFF_FFFF

  // ---------------------------------------------------------------------
  // Scale factor

  /** s fits when s copies in each direction of every source pixel fit in the area. */
  predicate Fits(s: nat, pixels: nat, area: nat)
  {
    s * s * pixels <= area
  }

  /** Counts s upward from a scale known to fit until the next one does not. */
  function FloorSqrtFrom(area: nat, pixels: nat, s: nat): (r: nat)
    requires 0 < pixels && Fits(s, pixels, area)
    ensures Fits(r, pixels, area) && !Fits(r + 1, pixels, area)
    decreases area - s
  {
    if !Fits(s + 1, pixels, area) then s
    else
      assert s + 1 <= area by { RootBound(s + 1, pixels); }
      FloorSqrtFrom(area, pixels, s + 1)
  }

  /** floor(sqrt(area / pixels)), computed on integers. */
  function FloorSqrtRatio(area: nat, pixels: nat): (s: nat)
    requires 0 < pixels
    ensures Fits(s, pixels, area) && !Fits(s + 1, pixels, area)
  {
    FloorSqrtFrom(area, pixels, 0)
  }

  /** The `scaler` of display_buffer for a frame of frameLen bytes: the largest
      uniform magnification whose square times the source pixel count fits in
      the window area. An empty frame divides by zero, giving +infinity, which
      the cast to `usize` saturates. */
  function Scaler(frameLen: nat): (s: nat)
    ensures frameLen == 0 ==> s == USIZE_MAX
    ensures frameLen > 0 ==> Fits(s, frameLen * 8, WIDTH * HEIGHT) && !Fits(s + 1, frameLen * 8, WIDTH * HEIGHT)
  {
    if frameLen == 0 then USIZE_MAX else FloorSqrtRatio(WIDTH * HEIGHT, frameLen * 8)
  }

  // ---------------------------------------------------------------------
  // Reference definition of the expanded frame

  /** The place value 2^i of bit i of a byte. */
  function PlaceValue(i: nat): bv8
    requires i < 8
  {
    match i
    case 0 => 0x01
    case 1 => 0x02
    case 2 => 0x04
    case 3 => 0x08
    case 4 => 0x10
    case 5 => 0x20
    case 6 => 0x40
    case _ => 0x80
  }

  /** Bit i of b is set (bit 0 is the least significant). */
  predicate Bit(b: bv8, i: nat)
    requires i < 8
  {
    b & PlaceValue(i) != 0
  }

  /** Source pixel (col, row) of a packed frame: rows of 8 bytes, the most
      significant bit of each byte leftmost. */
  predicate SourcePixel(frame: seq<bv8>, col: nat, row: nat)
    requires col < 64 && 8 * row + 8 <= |frame|
  {
    Bit(frame[8 * row + col / 8], 7 - col % 8)
  }

  function Color(on: bool): u32
  {
    if on then PIXEL_COLOR_ON else PIXEL_COLOR_OFF
  }

  /** The runs of the first k bits of b, leftmost (bit 7) first, each s pixels wide. */
  function BitRuns(b: bv8, s: nat, k: nat): seq<u32>
    requires k <= 8
  {
    if k == 0 then [] else BitRuns(b, s, k - 1) + Fill(Color(Bit(b, 8 - k)), s)
  }

  /** The horizontally magnified pixels of one byte. */
  function ByteRun(b: bv8, s: nat): seq<u32>
  {
    BitRuns(b, s, 8)
  }

  /** The horizontally magnified pixels of a run of bytes, first byte leftmost. */
  function RowPixels(bytes: seq<bv8>, s: nat): seq<u32>
  {
    if |bytes| == 0 then [] else RowPixels(bytes[..|bytes| - 1], s) + ByteRun(bytes[|bytes| - 1], s)
  }

  /** The first n complete 8-byte source rows, each magnified and written s times. */
  function Rows(frame: seq<bv8>, s: nat, n: nat): seq<u32>
    requires 8 * n <= |frame|
  {
    if n == 0 then []
    else Rows(frame, s, n - 1) + Repeat(RowPixels(frame[8 * (n - 1) .. 8 * n], s), s)
  }

  /** The window buffer for frame at scale s: every complete row, in order. */
  function Expand(frame: seq<bv8>, s: nat): seq<u32>
  {
    Rows(frame, s, |frame| / 8)
  }

  // ---------------------------------------------------------------------
  // The renderer

  /** 0b1000_0000 halved k times: the mask of the k-th bit from the left. */
  function Mask(k: nat): bv8
    requires k <= 8
  {
    if k == 8 then 0 else PlaceValue(7 - k)
  }

  /** Testing `b & Mask(k) == Mask(k)` reads bit 7 - k of b. */
  lemma MaskTest(b: bv8, k: nat)
    requires k < 8
    ensures (b & Mask(k) == Mask(k)) == Bit(b, 7 - k)
  {
    var m := Mask(k);
    assert m == PlaceValue(7 - k);
    assert m == 0x01 || m == 0x02 || m == 0x04 || m == 0x08 || m == 0x10 || m == 0x20 || m == 0x40 || m == 0x80;
  }

  /** Halving the mask moves it one bit to the right. */
  lemma MaskHalves(k: nat)
    requires k < 8
    ensures Mask(k) / 2 == Mask(k + 1)
  {
  }

  /** One more bit of a byte adds its run to the pixels so far. */
  lemma BitRunsStep(row: seq<u32>, b: bv8, s: nat, k: nat)
    requires k < 8
    ensures row + BitRuns(b, s, k + 1) == (row + BitRuns(b, s, k)) + Fill(Color(Bit(b, 7 - k)), s)
  {
  }

  /** One more byte joins the row being built. */
  lemma RowGrows(frame: seq<bv8>, s: nat, start: nat, i: nat)
    requires start <= i < |frame|
    ensures RowPixels(frame[start .. i + 1], s) == RowPixels(frame[start .. i], s) + ByteRun(frame[i], s)
  {
    assert frame[start .. i + 1][..i - start] == frame[start .. i];
  }

  /** Within row `row`, byte i is the row's last exactly when (i + 1) % 8 == 0. */
  lemma RowEnd(i: int, row: int)
    requires 8 * row <= i < 8 * row + 8
    ensures ((i + 1) % 8 == 0) == (i + 1 == 8 * row + 8)
  {
    if i + 1 == 8 * row + 8 {
      DivModUnique(i + 1, 8, row + 1, 0);
    } else {
      DivModUnique(i + 1, 8, row, i + 1 - 8 * row);
    }
  }

  lemma AllRows(frame: seq<bv8>, s: nat, row: nat)
    requires 8 * row <= |frame| < 8 * row + 8
    ensures Rows(frame, s, row) == Expand(frame, s)
  {
    DivModUnique(|frame|, 8, row, |frame| - 8 * row);
  }

  /** The inner loop of `display_buffer`: tests the bits of one byte from the
      most significant down, halving the mask each time, and appends a run of
      `scaler` ON or OFF pixels per bit to the row being built. */
  method AppendByte(row: seq<u32>, pixel: bv8, scaler: nat) returns (result: seq<u32>)
    ensures result == row + ByteRun(pixel, scaler)
  {
    result := row;
    var power2: bv8 := 0x80;
    for k := 0 to 8
      invariant power2 == Mask(k)
      invariant result == row + BitRuns(pixel, scaler, k)
    {
      MaskTest(pixel, k);
      MaskHalves(k);
      BitRunsStep(row, pixel, scaler, k);
      if pixel & power2 == power2 {
        result := result + Fill(PIXEL_COLOR_ON, scaler);
      } else {
        result := result + Fill(PIXEL_COLOR_OFF, scaler);
      }
      power2 := power2 / 2;
    }
  }

  /** `display_buffer`: each byte of the frame, in order, adds its pixels to
      the current row; after every eighth byte the row is appended `scaler`
      times to the result and started afresh. Bytes after the last complete
      row never reach the result. */
  method DisplayBuffer(chip8: Chip8Sys) returns (results: seq<u32>)
    ensures results == Expand(chip8.frameBuffer, Scaler(|chip8.frameBuffer|))
  {
    var frame := chip8.frameBuffer;
    var scaler := Scaler(|frame|);
    results := [];
    var result: seq<u32> := [];
    ghost var row := 0;
    for i := 0 to |frame|
      invariant 8 * row <= i < 8 * row + 8
      invariant results == Rows(frame, scaler, row)
      invariant result == RowPixels(frame[8 * row .. i], scaler)
    {
      RowEnd(i, row);
      RowGrows(frame, scaler, 8 * row, i);
      result := AppendByte(result, frame[i], scaler);
      if (i + 1) % 8 == 0 {
        results := results + Repeat(result, scaler);
        result := [];
        row := row + 1;
      }
    }
    AllRows(frame, scaler, row);
  }

  // ---------------------------------------------------------------------
  // The scale factor for the emulator's frame

  /** No larger scale fits: Scaler is the floor of the square root. */
  lemma ScalerIsLargest(frameLen: nat, t: nat)
    requires 0 < frameLen && Fits(t, frameLen * 8, WIDTH * HEIGHT)
    ensures t <= Scaler(frameLen)
  {
    var s := Scaler(frameLen);
    if t > s {
      SquareMonotone(s + 1, t, frameLen * 8);
    }
  }

  /** A 256-byte frame in the 1920x960 window is magnified 30 times. */
  lemma StandardScaler()
    ensures Scaler(FRAME_BYTES) == 30
  {
    var s := Scaler(FRAME_BYTES);
    assert Fits(30, 2048, 1843200) && !Fits(31, 2048, 1843200);
    ScalerIsLargest(FRAME_BYTES, 30);
    SquareMonotone(31, s, 2048);
  }

  // ---------------------------------------------------------------------
  // Sizes

  lemma {:induction false} BitRunsLength(b: bv8, s: nat, k: nat)
    requires k <= 8
    ensures |BitRuns(b, s, k)| == k * s
  {
    if k > 0 {
      BitRunsLength(b, s, k - 1);
      MulSucc(k, s);
    }
  }

  lemma {:induction false} RowPixelsLength(bytes: seq<bv8>, s: nat)
    ensures |RowPixels(bytes, s)| == |bytes| * (8 * s)
  {
    var n := |bytes|;
    if n > 0 {
      RowPixelsLength(bytes[..n - 1], s);
      BitRunsLength(bytes[n - 1], s, 8);
      MulSucc(n, 8 * s);
    }
  }

  lemma RowLength(frame: seq<bv8>, s: nat, r: nat)
    requires 8 * r + 8 <= |frame|
    ensures |Repeat(RowPixels(frame[8 * r .. 8 * r + 8], s), s)| == s * (64 * s)
  {
    var row := RowPixels(frame[8 * r .. 8 * r + 8], s);
    RowPixelsLength(frame[8 * r .. 8 * r + 8], s);
    RepeatLength(row, s);
  }

  lemma {:induction false} RowsLength(frame: seq<bv8>, s: nat, n: nat)
    requires 8 * n <= |frame|
    ensures |Rows(frame, s, n)| == n * (s * (64 * s))
  {
    if n > 0 {
      RowsLength(frame, s, n - 1);
      RowLength(frame, s, n - 1);
      MulSucc(n, s * (64 * s));
    }
  }

  /** Every complete source row becomes s rows of 64 * s pixels; for a frame of
      whole rows that is s * s * 8 pixels per byte. */
  lemma ExpandLength(frame: seq<bv8>, s: nat)
    ensures |Expand(frame, s)| == s * s * 64 * (|frame| / 8)
    ensures |frame| % 8 == 0 ==> |Expand(frame, s)| == s * s * 8 * |frame|
  {
    var n := |frame| / 8;
    assert |Expand(frame, s)| == s * s * 64 * n by {
      RowsLength(frame, s, n);
      assert n * (s * (64 * s)) == s * s * 64 * n;
    }
    if |frame| % 8 == 0 {
      assert s * s * 64 * n == s * s * 8 * |frame| by {
        assert |frame| == 8 * n;
      }
    }
  }

  /** The emulator's 256-byte frame fills the 1920x960 window exactly. */
  lemma StandardFrameFillsWindow(frame: seq<bv8>)
    requires |frame| == FRAME_BYTES
    ensures |Expand(frame, Scaler(|frame|))| == WIDTH * HEIGHT
  {
    StandardScaler();
    ExpandLength(frame, 30);
  }

  // ---------------------------------------------------------------------
  // Where each pixel comes from

  /** Pixel t of the run for bit position p (counted from the left) has that bit's colour. */
  lemma {:induction false} BitRunsAt(b: bv8, s: nat, k: nat, p: nat, t: nat)
    requires k <= 8 && p < k && t < s
    ensures |BitRuns(b, s, k)| == k * s && p * s + t < k * s
    ensures BitRuns(b, s, k)[p * s + t] == Color(Bit(b, 7 - p))
  {
    BitRunsLength(b, s, k);
    BlockBound(p, t, s, k);
    BitRunsLength(b, s, k - 1);
    AppendBlockAt(BitRuns(b, s, k - 1), Fill(Color(Bit(b, 8 - k)), s), k - 1, s, p, t);
    if p < k - 1 {
      BitRunsAt(b, s, k - 1, p, t);
    }
  }

  /** Pixel t of the pixels for byte q of a row is pixel t of that byte's expansion. */
  lemma {:induction false} RowPixelsAt(bytes: seq<bv8>, s: nat, q: nat, t: nat)
    requires q < |bytes| && t < 8 * s
    ensures |RowPixels(bytes, s)| == |bytes| * (8 * s) && q * (8 * s) + t < |bytes| * (8 * s)
    ensures |ByteRun(bytes[q], s)| == 8 * s
    ensures RowPixels(bytes, s)[q * (8 * s) + t] == ByteRun(bytes[q], s)[t]
  {
    var n := |bytes|;
    RowPixelsLength(bytes, s);
    BlockBound(q, t, 8 * s, n);
    BitRunsLength(bytes[q], s, 8);
    RowPixelsLength(bytes[..n - 1], s);
    BitRunsLength(bytes[n - 1], s, 8);
    AppendBlockAt(RowPixels(bytes[..n - 1], s), ByteRun(bytes[n - 1], s), n - 1, 8 * s, q, t);
    if q < n - 1 {
      RowPixelsAt(bytes[..n - 1], s, q, t);
    }
  }

  /** Pixel j of the band of s window rows for source row r. */
  lemma {:induction false} RowsAt(frame: seq<bv8>, s: nat, n: nat, r: nat, j: nat)
    requires 8 * n <= |frame| && r < n && j < s * (64 * s)
    ensures |Rows(frame, s, n)| == n * (s * (64 * s))
    ensures r * (s * (64 * s)) + j < n * (s * (64 * s))
    ensures |Repeat(RowPixels(frame[8 * r .. 8 * r + 8], s), s)| == s * (64 * s)
    ensures Rows(frame, s, n)[r * (s * (64 * s)) + j]
      == Repeat(RowPixels(frame[8 * r .. 8 * r + 8], s), s)[j]
  {
    var w := s * (64 * s);
    RowsLength(frame, s, n);
    BlockBound(r, j, w, n);
    RowLength(frame, s, r);
    var init, block := Rows(frame, s, n - 1), Repeat(RowPixels(frame[8 * (n - 1) .. 8 * n], s), s);
    assert Rows(frame, s, n) == init + block;
    assert (init + block)[r * w + j] == if r < n - 1 then init[r * w + j] else block[j] by {
      RowsLength(frame, s, n - 1);
      RowLength(frame, s, n - 1);
      AppendBlockAt(init, block, n - 1, w, r, j);
    }
    if r < n - 1 {
      RowsAt(frame, s, n - 1, r, j);
    }
  }

  /** Within the pixels of one 8-byte row: pixel t of the run for bit p of byte q. */
  lemma RowPixelBit(bytes: seq<bv8>, s: nat, q: nat, p: nat, t: nat)
    requires |bytes| == 8 && q < 8 && p < 8 && t < s
    ensures |RowPixels(bytes, s)| == 64 * s && q * (8 * s) + (p * s + t) < 64 * s
    ensures RowPixels(bytes, s)[q * (8 * s) + (p * s + t)] == Color(Bit(bytes[q], 7 - p))
  {
    BlockBound(p, t, s, 8);
    BitRunsAt(bytes[q], s, 8, p, t);
    RowPixelsAt(bytes, s, q, p * s + t);
  }

  /** The pixel fact in block coordinates: pixel t of the run for bit p of byte q,
      in window row a of the band for source row r. */
  lemma ExpandBlockPixel(frame: seq<bv8>, s: nat, r: nat, a: nat, q: nat, p: nat, t: nat, i: nat)
    requires 8 * r + 8 <= |frame| && a < s && q < 8 && p < 8 && t < s
    requires i == r * (s * (64 * s)) + (a * (64 * s) + (q * (8 * s) + (p * s + t)))
    ensures i < |Expand(frame, s)|
    ensures Expand(frame, s)[i] == Color(Bit(frame[8 * r + q], 7 - p))
  {
    var n := |frame| / 8;
    RowFits(r, |frame|);
    var bytes := frame[8 * r .. 8 * r + 8];
    var row := RowPixels(bytes, s);
    var x := q * (8 * s) + (p * s + t);
    var j := a * (64 * s) + x;
    assert j < s * (64 * s) && Repeat(row, s)[j] == Color(Bit(frame[8 * r + q], 7 - p)) by {
      RowPixelBit(bytes, s, q, p, t);
      BlockBound(a, x, 64 * s, s);
      RepeatAt(row, s, a, x);
    }
    RowsAt(frame, s, n, r, j);
  }

  /** Pixel (x, y) of the window, at row-major index i in rows 64 * s pixels
      wide, shows source pixel (x / s, y / s). */
  lemma ExpandPixel(frame: seq<bv8>, s: nat, x: nat, y: nat, i: nat)
    requires 0 < s && x < 64 * s && y / s < |frame| / 8 && i == y * (64 * s) + x
    ensures x / s < 64 && 8 * (y / s) + 8 <= |frame| && i < |Expand(frame, s)|
    ensures Expand(frame, s)[i] == Color(SourcePixel(frame, x / s, y / s))
  {
    DivBound(x, s, 64);
    RowFits(y / s, |frame|);
    BandSplit(x, y, s, 64 * s);
    ByteSplit(x, s);
    ExpandBlockPixel(frame, s, y / s, y % s, (x / s) / 8, (x / s) % 8, x % s, i);
  }

  // ---------------------------------------------------------------------
  // Consequences of the pixel formula

  /** Every index of the window buffer is some pixel of the run for bit p of
      byte q of source row r, in window row a of that row's band. */
  lemma Locate(frame: seq<bv8>, s: nat, i: nat) returns (r: nat, a: nat, q: nat, p: nat, t: nat)
    requires i < |Expand(frame, s)|
    ensures 8 * r + 8 <= |frame| && a < s && q < 8 && p < 8 && t < s
    ensures i == r * (s * (64 * s)) + (a * (64 * s) + (q * (8 * s) + (p * s + t)))
  {
    var n := |frame| / 8;
    RowsLength(frame, s, n);
    var r', a', q', p', t' := Decompose(i, s, n);
    r, a, q, p, t := r', a', q', p', t';
    RowFits(r, |frame|);
  }

  /** The window only ever shows the two colours. */
  lemma TwoColors(frame: seq<bv8>, s: nat, i: nat)
    requires i < |Expand(frame, s)|
    ensures Expand(frame, s)[i] == PIXEL_COLOR_ON || Expand(frame, s)[i] == PIXEL_COLOR_OFF
  {
    var r, a, q, p, t := Locate(frame, s, i);
    ExpandBlockPixel(frame, s, r, a, q, p, t, i);
  }

  /** A cleared frame shows nothing but the OFF colour. */
  lemma BlankFrameIsOff(frame: seq<bv8>, s: nat, i: nat)
    requires forall k :: 0 <= k < |frame| ==> frame[k] == 0
    requires i < |Expand(frame, s)|
    ensures Expand(frame, s)[i] == PIXEL_COLOR_OFF
  {
    var r, a, q, p, t := Locate(frame, s, i);
    ExpandBlockPixel(frame, s, r, a, q, p, t, i);
  }

  /** A frame of 0xFF bytes shows nothing but the ON colour. */
  lemma FullFrameIsOn(frame: seq<bv8>, s: nat, i: nat)
    requires forall k :: 0 <= k < |frame| ==> frame[k] == 0xFF
    requires i < |Expand(frame, s)|
    ensures Expand(frame, s)[i] == PIXEL_COLOR_ON
  {
    var r, a, q, p, t := Locate(frame, s, i);
    ExpandBlockPixel(frame, s, r, a, q, p, t, i);
    assert PlaceValue(7 - p) != 0;
  }

  /** Bits are read most significant first: with 0x80 as the first byte, the
      first s pixels of the top row are ON and the next 7 * s are OFF. */
  lemma HighBitIsLeftmost(frame: seq<bv8>, s: nat, x: nat)
    requires 8 <= |frame| && frame[0] == 0x80 && 0 < s && x < 8 * s
    ensures x < |Expand(frame, s)|
    ensures Expand(frame, s)[x] == PIXEL_COLOR_ON <==> x < s
  {
    assert s <= s * (|frame| / 8);
    ExpandPixel(frame, s, x, 0, x);
    DivBound(x, s, 8);
    var c := x / s;
    assert c == 0 <==> x < s;
    assert PlaceValue(7 - c) & 0x80 != 0 <==> c == 0;
  }

  /** Magnifying is the same at every scale: window index i, pixel (x, y) at
      scale s, shows what index j, pixel (x / s, y / s) at scale 1, shows. */
  lemma ScalingConsistency(frame: seq<bv8>, s: nat, x: nat, y: nat, i: nat, j: nat)
    requires 0 < s && x < 64 * s && y / s < |frame| / 8
    requires i == y * (64 * s) + x && j == (y / s) * 64 + x / s
    ensures i < |Expand(frame, s)| && j < |Expand(frame, 1)|
    ensures Expand(frame, s)[i] == Expand(frame, 1)[j]
  {
    ExpandPixel(frame, s, x, y, i);
    DivBound(x, s, 64);
    ExpandPixel(frame, 1, x / s, y / s, j);
  }

  /** Rows only look at the bytes of the rows themselves. */
  lemma {:induction false} RowsPrefix(frame: seq<bv8>, other: seq<bv8>, s: nat, n: nat)
    requires 8 * n <= |frame| && 8 * n <= |other| && frame[..8 * n] == other[..8 * n]
    ensures Rows(frame, s, n) == Rows(other, s, n)
  {
    if n > 0 {
      assert frame[..8 * (n - 1)] == frame[..8 * n][..8 * (n - 1)];
      assert other[..8 * (n - 1)] == other[..8 * n][..8 * (n - 1)];
      RowsPrefix(frame, other, s, n - 1);
      assert frame[8 * (n - 1) .. 8 * n] == frame[..8 * n][8 * (n - 1) ..];
      assert other[8 * (n - 1) .. 8 * n] == other[..8 * n][8 * (n - 1) ..];
    }
  }

  /** A trailing partial row is dropped: only the whole 8-byte rows are drawn. */
  lemma TrailingBytesIgnored(frame: seq<bv8>, s: nat)
    ensures Expand(frame, s) == Expand(frame[..8 * (|frame| / 8)], s)
  {
    var n := |frame| / 8;
    var whole := frame[..8 * n];
    assert |whole| / 8 == n;
    assert whole[..8 * n] == frame[..8 * n];
    RowsPrefix(frame, whole, s, n);
  }

  /** Appending one more 8-byte row to a frame of whole rows appends that
      row's magnified pixels s times to the window buffer. */
  lemma AppendRow(frame: seq<bv8>, row: seq<bv8>, s: nat)
    requires |frame| % 8 == 0 && |row| == 8
    ensures Expand(frame + row, s) == Expand(frame, s) + Repeat(RowPixels(row, s), s)
  {
    var n := |frame| / 8;
    var longer := frame + row;
    assert |frame| == 8 * n;
    assert Expand(longer, s) == Rows(longer, s, n + 1) by {
      DivModUnique(|longer|, 8, n + 1, 0);
    }
    assert Rows(longer, s, n) == Rows(frame, s, n) by {
      assert longer[..8 * n] == frame[..8 * n];
      RowsPrefix(longer, frame, s, n);
    }
    assert longer[8 * n .. 8 * (n + 1)] == row;
  }

  /** For a frame of whole rows the window buffer at the computed scale fits
      in the window. */
  lemma ScaledFrameFits(frame: seq<bv8>)
    requires 0 < |frame| && |frame| % 8 == 0
    ensures |Expand(frame, Scaler(|frame|))| <= WIDTH * HEIGHT
  {
    var s := Scaler(|frame|);
    ExpandLength(frame, s);
    assert s * s * 8 * |frame| == s * s * (|frame| * 8);
  }
}
