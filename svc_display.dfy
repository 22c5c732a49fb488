/**
 * The display service's frame buffer (`svc_display.c`): 0x400 bytes for a
 * 128 x 64 monochrome LCD, one byte per column of each 8-pixel page, the
 * least significant bit at the top of the page.
 */
module DisplayService {
  import opened Common

  const FRAME_BUF_LEN: nat := 0x400
  const LCD_COLUMNS: nat := 0x80
  const LCD_ROWS: nat := 64
  const PAGE_HEIGHT: nat := 8
  /** Pixel coordinates are `uint16_t`. */
  const UINT16_LIMIT: nat := 0x1_0000

  /**
   * The byte of the frame buffer that holds pixel (x, y), computed in
   * `uint16_t`; every pixel of the screen lies in the buffer, at column x
   * of page y / 8.
   */
  function PixelIndex(x: nat, y: nat): (i: nat)
    ensures OnScreen(x, y) ==> i == x + LCD_COLUMNS * (y / PAGE_HEIGHT) < FRAME_BUF_LEN
  {
    assert OnScreen(x, y) ==> y / PAGE_HEIGHT < 8 && LCD_COLUMNS * (y / PAGE_HEIGHT) <= LCD_COLUMNS * 7;
    (x + LCD_COLUMNS * (y / PAGE_HEIGHT)) % UINT16_LIMIT
  }

  /** The bit of that byte that holds pixel (x, y). */
  function PixelBit(y: nat): (j: bv8)
    ensures j < 8
  {
    (y % PAGE_HEIGHT) as bv8
  }

  /** The mask of bit j of a byte. */
  function Mask(j: bv8): bv8
    requires j < 8
  {
    1 << j
  }

  /** Bit j of the byte set to `state`: that bit reads `state` and every other bit is unchanged. */
  function SetPixelBit(b: bv8, j: bv8, state: bool): (r: bv8)
    requires j < 8
    ensures r & Mask(j) == (if state then Mask(j) else 0)
    ensures r & !Mask(j) == b & !Mask(j)
  {
    (b & !(1 << j)) | ((if state then 1 else 0) << j)
  }

  /** A byte whose other bits agree with another's agrees with it on every bit but j. */
  lemma OtherBitKept(r: bv8, b: bv8, j: bv8, k: bv8)
    requires j < 8 && k < 8 && j != k
    requires r & !Mask(j) == b & !Mask(j)
    ensures r & Mask(k) == b & Mask(k)
  {
    assert Mask(k) & !Mask(j) == Mask(k);
    assert r & Mask(k) == (r & !Mask(j)) & Mask(k);
    assert b & Mask(k) == (b & !Mask(j)) & Mask(k);
  }

  predicate OnScreen(x: nat, y: nat) {
    x < LCD_COLUMNS && y < LCD_ROWS
  }

  /** Whether pixel (x, y) is lit in the frame buffer. */
  predicate PixelOn(fb: seq<bv8>, x: nat, y: nat)
    requires |fb| == FRAME_BUF_LEN && OnScreen(x, y)
  {
    fb[PixelIndex(x, y)] & Mask(PixelBit(y)) != 0
  }

  /** The frame buffer after `svc_display_put_pixel(x, y, state)`. */
  function Drawn(fb: seq<bv8>, x: nat, y: nat, state: bool): (fb': seq<bv8>)
    requires |fb| == FRAME_BUF_LEN && PixelIndex(x, y) < FRAME_BUF_LEN
    ensures |fb'| == FRAME_BUF_LEN
  {
    fb[PixelIndex(x, y) := SetPixelBit(fb[PixelIndex(x, y)], PixelBit(y), state)]
  }

  /** Two pixels of the screen that share a byte and a bit are the same pixel. */
  lemma PixelsDistinct(x: nat, y: nat, x': nat, y': nat)
    requires OnScreen(x, y) && OnScreen(x', y')
    requires PixelIndex(x, y) == PixelIndex(x', y') && PixelBit(y) == PixelBit(y')
    ensures x == x' && y == y'
  {
    var n := PixelIndex(x, y);
    DivUnique(n, LCD_COLUMNS, y / PAGE_HEIGHT, x);
    DivUnique(n, LCD_COLUMNS, y' / PAGE_HEIGHT, x');
    assert y % PAGE_HEIGHT == y' % PAGE_HEIGHT by {
      assert (y % PAGE_HEIGHT) as bv8 == (y' % PAGE_HEIGHT) as bv8;
    }
  }

  /** A column past the right edge lands on the next page: (128, 0) is drawn as (0, 8). */
  lemma OffScreenColumnWraps()
    ensures PixelIndex(LCD_COLUMNS, 0) == PixelIndex(0, PAGE_HEIGHT) && PixelBit(0) == PixelBit(PAGE_HEIGHT)
  {
  }

  /** Setting bit j of a byte to `state`: bit j then reads `state`, every other bit reads as before. */
  lemma BitAfterSet(b: bv8, j: bv8, k: bv8, state: bool)
    requires j < 8 && k < 8
    ensures (SetPixelBit(b, j, state) & Mask(k) != 0) == if j == k then state else b & Mask(k) != 0
  {
    if j == k {
      SetBitReads(b, j, state);
    } else {
      OtherBitKept(SetPixelBit(b, j, state), b, j, k);
    }
  }

  /** The bit that was set reads the state it was set to. */
  lemma SetBitReads(b: bv8, j: bv8, state: bool)
    requires j < 8
    ensures (SetPixelBit(b, j, state) & Mask(j) != 0) == state
  {
    assert Mask(j) != 0;
  }

  /**
   * Drawing one pixel of the screen lights or clears exactly that pixel and
   * leaves every other pixel of the screen as it was.
   */
  lemma PutPixelEffect(fb: seq<bv8>, x: nat, y: nat, state: bool, x': nat, y': nat)
    requires |fb| == FRAME_BUF_LEN && OnScreen(x, y) && OnScreen(x', y')
    ensures PixelOn(Drawn(fb, x, y, state), x', y') == if x' == x && y' == y then state else PixelOn(fb, x', y')
  {
    var i, i' := PixelIndex(x, y), PixelIndex(x', y');
    var j, j' := PixelBit(y), PixelBit(y');
    var fb' := Drawn(fb, x, y, state);
    assert PixelOn(fb', x', y') == (fb'[i'] & Mask(j') != 0);
    if i != i' {
      assert fb'[i'] == fb[i'];
      if x' == x && y' == y {
        assert false;
      }
    } else {
      assert fb'[i'] == SetPixelBit(fb[i], j, state);
      BitAfterSet(fb[i], j, j', state);
      if j == j' {
        PixelsDistinct(x, y, x', y');
      }
    }
  }

  /** The statically allocated frame buffer. */
  class Display {
    const frameBuffer: array<bv8>

    /** The buffer starts cleared, as static storage is. */
    constructor ()
      ensures frameBuffer.Length == FRAME_BUF_LEN && fresh(frameBuffer)
      ensures forall i :: 0 <= i < FRAME_BUF_LEN ==> frameBuffer[i] == 0
    {
      frameBuffer := new bv8[FRAME_BUF_LEN](_ => 0);
    }

    /**
     * `svc_display_put_pixel`: the source does not check the coordinates,
     * so the caller must keep the byte it computes inside the buffer.
     */
    method PutPixel(x: nat, y: nat, state: bool)
      requires frameBuffer.Length == FRAME_BUF_LEN
      requires x < UINT16_LIMIT && y < UINT16_LIMIT && PixelIndex(x, y) < FRAME_BUF_LEN
      modifies frameBuffer
      ensures frameBuffer[..] == Drawn(old(frameBuffer[..]), x, y, state)
    {
      var column := x;
      var page := y / PAGE_HEIGHT;
      var bit := (y % PAGE_HEIGHT) as bv8;
      var index := (column + LCD_COLUMNS * page) % UINT16_LIMIT;
      var b := frameBuffer[index];
      frameBuffer[index] := (b & !(1 << bit)) | ((if state then 1 else 0) << bit);
    }
  }
}
