/** What kernel/video.c and kernel/game.c put on the screen, byte by byte. Nothing here
    goes through the images the drawing routines are proved against. */
module FramePixels {
  import opened Wrappers
  import opened Bytes
  import opened Video
  import opened Game
  import opened PuzzleVideo

  /** The three bytes of pixel (x, y) start here. */
  function PixelAt(mode: Mode, x: nat, y: nat): int { y * mode.pitch + 3 * x }

  /** The lines lie one after the other in a buffer of `size` bytes. */
  predicate Fitting(mode: Mode, size: nat) {
    3 * mode.xres <= mode.pitch && mode.pitch > 0 && mode.yres * mode.pitch <= size
  }

  lemma PixelBounds(mode: Mode, size: nat, x: nat, y: nat)
    requires Fitting(mode, size) && x < mode.xres && y < mode.yres
    ensures 0 <= PixelAt(mode, x, y) && PixelAt(mode, x, y) + 3 <= size
  {
    assert y * mode.pitch + mode.pitch == (y + 1) * mode.pitch <= mode.yres * mode.pitch;
    assert y * mode.pitch >= 0;
  }

  lemma DrawnByte(m0: seq<byte>, m1: seq<byte>, mode: Mode, img: Image, x: nat, y: nat, i: nat)
    requires Drawn(m0, m1, mode, img) && Fitting(mode, |m0|) && x < mode.xres && y < mode.yres && i < 3
    ensures var k := PixelAt(mode, x, y) + i;
            && 0 <= k < |m0|
            && m1[k] == match img(x, y)
                 case None => m0[k]
                 case Some(c) => [c.b, c.g, c.r][i]
  {
    PixelBounds(mode, |m0|, x, y);
    RowColSplit(y, 3 * x + i, mode.pitch);
    var k := y * mode.pitch + (3 * x + i);
    assert m1[k] == ByteAfter(m0, mode, img, k);
    assert (3 * x + i) / 3 == x && (3 * x + i) % 3 == i;
  }

  /** A drawing sets the bytes of a pixel to blue, green and red, in this order. */
  lemma DrawnPixel(m0: seq<byte>, m1: seq<byte>, mode: Mode, img: Image, x: nat, y: nat)
    requires Drawn(m0, m1, mode, img) && Fitting(mode, |m0|) && x < mode.xres && y < mode.yres
    ensures var k := PixelAt(mode, x, y);
            && 0 <= k && k + 3 <= |m0|
            && m1[k..k + 3] == match img(x, y)
                 case None => m0[k..k + 3]
                 case Some(c) => [c.b, c.g, c.r]
  {
    DrawnByte(m0, m1, mode, img, x, y, 0);
    DrawnByte(m0, m1, mode, img, x, y, 1);
    DrawnByte(m0, m1, mode, img, x, y, 2);
  }

  /** Bytes that belong to no pixel stay. */
  lemma DrawnElsewhere(m0: seq<byte>, m1: seq<byte>, mode: Mode, img: Image, k: nat)
    requires Drawn(m0, m1, mode, img) && k < |m0|
    requires k % mode.pitch >= 3 * mode.xres || k / mode.pitch >= mode.yres
    ensures m1[k] == m0[k]
  {
    RowColDivMod(k, mode.pitch);
  }

  // ----- a frame -----

  /** On the 3-pixel edge of cell (cx, cy). */
  predicate OnEdge(x: nat, y: nat, cx: int, cy: int) {
    && 100 * cx <= x < 100 * cx + 100 && 100 * cy <= y < 100 * cy + 100
    && (x < 100 * cx + 3 || x >= 100 * cx + 97 || y < 100 * cy + 3 || y >= 100 * cy + 97)
  }

  /** Within 3 pixels of one of the lines 0, 100, .., 100 * n. */
  predicate NearLine(p: nat, n: nat) { (p + 3) % 100 < 6 && (p + 3) / 100 <= n }

  /** The bytes at `k` are the picture pixel that belongs at (x, y): cell by cell, the
      pixel at the same place of the block the cell holds. */
  predicate ShowsBlock(buf: seq<byte>, k: nat, pic: Picture, g: State, x: nat, y: nat)
    requires g.nh > 0 && k + 3 <= |buf|
  {
    var cell := y / 100 * g.nh + x / 100;
    && 0 <= cell < |g.block|
    && var v := g.block[cell];
       var at := ((v / g.nh * 100 + y % 100) * pic.w + (v % g.nh * 100 + x % 100)) * 3;
       0 <= at && at + 3 <= |pic.bytes| && buf[k..k + 3] == pic.bytes[at..at + 3]
  }

  /** Pixel (x, y) of a frame: a pending selection's edge, else the cursor's, else the
      grid, else the block, and nothing outside. */
  predicate PixelShown(buf: seq<byte>, mode: Mode, pic: Picture, g: State, x: nat, y: nat)
    requires g.nh > 0
  {
    var k := PixelAt(mode, x, y);
    && 0 <= k && k + 3 <= |buf|
    && if g.selected && OnEdge(x, y, g.selX, g.selY) then buf[k..k + 3] == [0xff, 0, 0]
       else if OnEdge(x, y, g.x, g.y) then buf[k..k + 3] == [0, 0, 0xff]
       else if NearLine(x, g.nh) || NearLine(y, g.nv) then buf[k..k + 3] == [0, 0, 0]
       else if x < 100 * g.nh && y < 100 * g.nv then ShowsBlock(buf, k, pic, g, x, y)
       else buf[k..k + 3] == [0, 0, 0]
  }

  ghost predicate FrameShown(buf: seq<byte>, mode: Mode, pic: Picture, g: State)
    requires g.nh > 0
  {
    && (forall x: nat, y: nat :: x < mode.xres && y < mode.yres ==> PixelShown(buf, mode, pic, g, x, y))
    && NoMore(buf, mode)
  }

  /** The bytes of no pixel are 0. */
  ghost predicate NoMore(buf: seq<byte>, mode: Mode) {
    mode.pitch > 0
    && forall k: nat :: k < |buf| && (k % mode.pitch >= 3 * mode.xres || k / mode.pitch >= mode.yres) ==> buf[k] == 0
  }

  /** Pixel (x, y) of the picture alone, at the top left of the screen. */
  predicate PicturePixel(buf: seq<byte>, mode: Mode, pic: Picture, x: nat, y: nat) {
    var k, at := PixelAt(mode, x, y), (y * pic.w + x) * 3;
    && 0 <= k && k + 3 <= |buf|
    && if x < pic.w && y < pic.h then 0 <= at && at + 3 <= |pic.bytes| && buf[k..k + 3] == pic.bytes[at..at + 3]
       else buf[k..k + 3] == [0, 0, 0]
  }

  ghost predicate PictureShown(buf: seq<byte>, mode: Mode, pic: Picture) {
    && (forall x: nat, y: nat :: x < mode.xres && y < mode.yres ==> PicturePixel(buf, mode, pic, x, y))
    && NoMore(buf, mode)
  }
}
