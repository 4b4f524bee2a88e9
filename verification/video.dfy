/** Drawing into the screen buffer: kernel/video.c. */
module Video {
  import opened Wrappers
  import opened Bytes

  /** The three bytes of a pixel, in the order they lie in memory. */
  datatype Color = Color(b: byte, g: byte, r: byte)

  /** What a drawing puts where; `None` leaves a pixel alone. */
  type Image = (int, int) -> Option<Color>

  /** The fields of the mode information that drawing uses. */
  datatype Mode = Mode(pitch: nat, xres: nat, yres: nat)

  // ----- bytes and pixels -----

  /** Row and column of offset `k` in lines of `width`. */
  function RowOf(k: nat, width: nat): nat
    requires width > 0
  {
    if k < width then 0 else 1 + RowOf(k - width, width)
  }

  function ColOf(k: nat, width: nat): (c: nat)
    requires width > 0
    ensures c < width
  {
    if k < width then k else ColOf(k - width, width)
  }

  lemma {:induction false} RowColJoin(k: nat, width: nat)
    requires width > 0
    ensures RowOf(k, width) * width + ColOf(k, width) == k
  {
    if k >= width {
      RowColJoin(k - width, width);
      assert RowOf(k, width) * width == RowOf(k - width, width) * width + width;
    }
  }

  lemma {:induction false} RowColSplit(y: nat, c: nat, width: nat)
    requires c < width
    ensures RowOf(y * width + c, width) == y && ColOf(y * width + c, width) == c
  {
    if y > 0 {
      RowColSplit(y - 1, c, width);
      assert y * width + c == (y - 1) * width + c + width;
      assert (y - 1) * width >= 0;
    }
  }

  /** They are the quotient and the remainder. */
  lemma RowColDivMod(k: nat, width: nat)
    requires width > 0
    ensures RowOf(k, width) == k / width && ColOf(k, width) == k % width
  {
    var q, r := k / width, k % width;
    assert k == q * width + r;
    RowColSplit(q, r, width);
  }

  function Part(c: Color, i: nat): byte {
    if i == 0 then c.b else if i == 1 then c.g else c.r
  }

  predicate OnScreen(mode: Mode, x: int, y: int) { 0 <= x < mode.xres && 0 <= y < mode.yres }

  /** The byte at offset `k` once `img` is drawn over `m`. */
  function ByteAfter(m: seq<byte>, mode: Mode, img: Image, k: nat): byte
    requires mode.pitch > 0 && k < |m|
  {
    var x, y := ColOf(k, mode.pitch) / 3, RowOf(k, mode.pitch);
    if OnScreen(mode, x, y) && img(x, y).Some? then Part(img(x, y).value, ColOf(k, mode.pitch) % 3) else m[k]
  }

  /** `m1` is `m0` with `img` drawn over it, clipped to the screen, and every
      byte outside the pixels drawn unchanged. */
  ghost predicate Drawn(m0: seq<byte>, m1: seq<byte>, mode: Mode, img: Image) {
    && mode.pitch > 0 && |m1| == |m0|
    && forall k :: 0 <= k < |m0| ==> m1[k] == ByteAfter(m0, mode, img, k)
  }

  function Over(below: Image, above: Image): Image {
    (x, y) => if above(x, y).Some? then above(x, y) else below(x, y)
  }

  ghost predicate SameImage(f: Image, g: Image) {
    forall x, y :: f(x, y) == g(x, y)
  }

  /** Drawing one image after the other draws the second over the first. */
  lemma DrawnOver(m0: seq<byte>, m1: seq<byte>, m2: seq<byte>, mode: Mode, f: Image, g: Image, h: Image)
    requires Drawn(m0, m1, mode, f) && Drawn(m1, m2, mode, g) && SameImage(h, Over(f, g))
    ensures Drawn(m0, m2, mode, h)
  {
  }

  const NOTHING: Image := (x, y) => None

  lemma DrawnNothing(m: seq<byte>, mode: Mode, img: Image)
    requires mode.pitch > 0 && SameImage(img, NOTHING)
    ensures Drawn(m, m, mode, img)
  {
  }

  predicate Inside(x: int, y: int, x0: int, y0: int, w: int, h: int) {
    x0 <= x < x0 + w && y0 <= y < y0 + h
  }

  function Rect(x0: int, y0: int, w: int, h: int, c: Color): Image {
    (x, y) => if Inside(x, y, x0, y0, w, h) then Some(c) else None
  }

  // ----- colours -----

  /** draw_pixel's reading of a colour value. */
  function ColorOf(color: nat): Color {
    Color(color / 0x1_0000 % 0x100, color / 0x100 % 0x100, color % 0x100)
  }

  lemma LowByte(x: nat, y: byte)
    ensures (0x100 * x + y as int) / 0x100 == x && (0x100 * x + y as int) % 0x100 == y
  {
  }

  /** get_color's packing of three picture bytes; draw_pixel takes it apart again. */
  function Packed(b: byte, g: byte, r: byte): (color: nat)
    ensures ColorOf(color) == Color(b, g, r)
  {
    LowByte(0x100 * b as nat + g as nat, r);
    LowByte(b as nat, g);
    HighByte(b, 0x100 * g as nat + r as nat);
    b as int * 0x1_0000 + g as int * 0x100 + r as int
  }

  lemma HighByte(b: byte, x: nat)
    requires x < 0x1_0000
    ensures (0x1_0000 * b as int + x) / 0x1_0000 == b as int && b as int % 0x100 == b as int
  {
  }

  // ----- the drawing routines -----

  class Screen {
    const mode: Mode
    const buf: array<byte>

    ghost predicate Valid() {
      mode.pitch >= 3 * mode.xres && mode.pitch > 0 && mode.yres * mode.pitch <= buf.Length
    }

    constructor (m: Mode, b: array<byte>)
      requires m.pitch >= 3 * m.xres && m.pitch > 0 && m.yres * m.pitch <= b.Length
      ensures Valid() && mode == m && buf == b
    {
      mode, buf := m, b;
    }

    /** draw_pixel_bgr */
    method DrawPixelBgr(x: int, y: int, c: Color)
      requires Valid()
      modifies buf
      ensures Drawn(old(buf[..]), buf[..], mode, Rect(x, y, 1, 1, c))
    {
      ghost var m := buf[..];
      if 0 <= x < mode.xres && 0 <= y < mode.yres {
        PixelInside(x, y);
        var pixel := y * mode.pitch + x * 3;
        buf[pixel] := c.b;
        buf[pixel + 1] := c.g;
        buf[pixel + 2] := c.r;
      }
      PixelDrawn(m, buf[..], x, y, c);
    }

    lemma PixelInside(x: int, y: int)
      requires Valid() && OnScreen(mode, x, y)
      ensures 0 <= y * mode.pitch + x * 3 && y * mode.pitch + x * 3 + 3 <= buf.Length
    {
      assert y * mode.pitch + mode.pitch == (y + 1) * mode.pitch <= mode.yres * mode.pitch;
      assert y * mode.pitch >= 0;
    }

    lemma PixelDrawn(m: seq<byte>, m': seq<byte>, x: int, y: int, c: Color)
      requires Valid() && |m| == |m'| == buf.Length
      requires !OnScreen(mode, x, y) ==> m' == m
      requires OnScreen(mode, x, y) ==>
        var p := y * mode.pitch + x * 3;
        0 <= p && p + 3 <= |m| && m' == m[p := c.b][p + 1 := c.g][p + 2 := c.r]
      ensures Drawn(m, m', mode, Rect(x, y, 1, 1, c))
    {
      forall k | 0 <= k < |m| ensures m'[k] == ByteAfter(m, mode, Rect(x, y, 1, 1, c), k) {
        var col, row := ColOf(k, mode.pitch), RowOf(k, mode.pitch);
        RowColJoin(k, mode.pitch);
        assert col == col / 3 * 3 + col % 3;
        if OnScreen(mode, x, y) {
          PixelInside(x, y);
          var i := k - (y * mode.pitch + x * 3);
          if 0 <= i < 3 {
            RowColSplit(y, x * 3 + i, mode.pitch);
          }
        }
      }
    }

    /** draw_pixel */
    method DrawPixel(x: int, y: int, color: nat)
      requires Valid()
      modifies buf
      ensures Drawn(old(buf[..]), buf[..], mode, Rect(x, y, 1, 1, ColorOf(color)))
    {
      DrawPixelBgr(x, y, ColorOf(color));
    }

    /** The inner loop draw_column and draw_row share: one line. */
    method FillLine(x: int, y: int, w: int, color: nat)
      requires Valid()
      modifies buf
      ensures Drawn(old(buf[..]), buf[..], mode, Rect(x, y, w, 1, ColorOf(color)))
    {
      ghost var m, c := buf[..], ColorOf(color);
      DrawnNothing(m, mode, Rect(x, y, 0, 1, c));
      var offX := 0;
      while offX < w
        invariant 0 <= offX && (offX == 0 || offX <= w) && Drawn(m, buf[..], mode, Rect(x, y, offX, 1, c))
      {
        ghost var m1 := buf[..];
        DrawPixel(x + offX, y, color);
        DrawnOver(m, m1, buf[..], mode, Rect(x, y, offX, 1, c), Rect(x + offX, y, 1, 1, c), Rect(x, y, offX + 1, 1, c));
        offX := offX + 1;
      }
      DrawnAlike(m, buf[..], mode, Rect(x, y, offX, 1, c), Rect(x, y, w, 1, c));
    }

    /** And the outer one. */
    method Fill(x: int, y: int, w: int, h: int, color: nat)
      requires Valid()
      modifies buf
      ensures Drawn(old(buf[..]), buf[..], mode, Rect(x, y, w, h, ColorOf(color)))
    {
      ghost var m, c := buf[..], ColorOf(color);
      DrawnNothing(m, mode, Rect(x, y, w, 0, c));
      var offY := 0;
      while offY < h
        invariant 0 <= offY && (offY == 0 || offY <= h) && Drawn(m, buf[..], mode, Rect(x, y, w, offY, c))
      {
        ghost var m1 := buf[..];
        FillLine(x, y + offY, w, color);
        DrawnOver(m, m1, buf[..], mode, Rect(x, y, w, offY, c), Rect(x, y + offY, w, 1, c), Rect(x, y, w, offY + 1, c));
        offY := offY + 1;
      }
      DrawnAlike(m, buf[..], mode, Rect(x, y, w, offY, c), Rect(x, y, w, h, c));
    }

    /** draw_column: `width` is centred on `x`. */
    method DrawColumn(x: int, y: int, width: int, length: int, color: nat)
      requires Valid()
      modifies buf
      ensures Drawn(old(buf[..]), buf[..], mode, Rect(x - width / 2, y, width, length, ColorOf(color)))
    {
      ghost var m, c := buf[..], ColorOf(color);
      Fill(x - Half(width), y, width, length, color);
      DrawnAlike(m, buf[..], mode, Rect(x - Half(width), y, width, length, c),
                 Rect(x - width / 2, y, width, length, c));
    }

    /** draw_row: `width` is centred on `y`. */
    method DrawRow(x: int, y: int, width: int, length: int, color: nat)
      requires Valid()
      modifies buf
      ensures Drawn(old(buf[..]), buf[..], mode, Rect(x, y - width / 2, length, width, ColorOf(color)))
    {
      ghost var m, c := buf[..], ColorOf(color);
      Fill(x, y - Half(width), length, width, color);
      DrawnAlike(m, buf[..], mode, Rect(x, y - Half(width), length, width, c),
                 Rect(x, y - width / 2, length, width, c));
    }

    /** Areas A and D of draw_border's picture. */
    method DrawTopAndBottom(x: int, y: int, w: int, h: int, thick: int, color: nat)
      requires Valid()
      modifies buf
      ensures Drawn(old(buf[..]), buf[..], mode, TopAndBottom(x, y, w, h, thick, ColorOf(color)))
    {
      ghost var m, c := buf[..], ColorOf(color);
      DrawRow(x, y + Half(thick), thick, w, color);
      ghost var m1 := buf[..];
      DrawRow(x, y + h - thick + Half(thick), thick, w, color);
      DrawnOver(m, m1, buf[..], mode, Rect(x, y, w, thick, c), Rect(x, y + h - thick, w, thick, c),
                TopAndBottom(x, y, w, h, thick, c));
    }

    /** Its areas B and C. */
    method DrawSides(x: int, y: int, w: int, h: int, thick: int, color: nat)
      requires Valid()
      modifies buf
      ensures Drawn(old(buf[..]), buf[..], mode, Sides(x, y, w, h, thick, ColorOf(color)))
    {
      ghost var m, c := buf[..], ColorOf(color);
      DrawColumn(x + Half(thick), y + thick, thick, h - thick * 2, color);
      ghost var m1 := buf[..];
      DrawColumn(x + w - thick + Half(thick), y + thick, thick, h - thick * 2, color);
      DrawnOver(m, m1, buf[..], mode, Rect(x, y + thick, thick, h - thick * 2, c),
                Rect(x + w - thick, y + thick, thick, h - thick * 2, c), Sides(x, y, w, h, thick, c));
    }

    /** draw_border: a rectangle without its inside, for odd and even thickness. */
    method DrawBorder(x: int, y: int, w: int, h: int, thick: int, color: nat)
      requires Valid()
      modifies buf
      ensures Drawn(old(buf[..]), buf[..], mode, FourBars(x, y, w, h, thick, ColorOf(color)))
      ensures thick <= w && thick <= h ==>
        Drawn(old(buf[..]), buf[..], mode, Border(x, y, w, h, thick, ColorOf(color)))
    {
      ghost var m, c := buf[..], ColorOf(color);
      DrawTopAndBottom(x, y, w, h, thick, color);
      ghost var m1 := buf[..];
      DrawSides(x, y, w, h, thick, color);
      DrawnOver(m, m1, buf[..], mode, TopAndBottom(x, y, w, h, thick, c), Sides(x, y, w, h, thick, c),
                FourBars(x, y, w, h, thick, c));
      if thick <= w && thick <= h {
        BorderShape(x, y, w, h, thick, c);
        DrawnAlike(m, buf[..], mode, FourBars(x, y, w, h, thick, c), Border(x, y, w, h, thick, c));
      }
    }
  }

  /** `n / 2` in C, which rounds towards 0. */
  function Half(n: int): int { if n < 0 then -(-n / 2) else n / 2 }

  lemma DrawnAlike(m0: seq<byte>, m1: seq<byte>, mode: Mode, f: Image, g: Image)
    requires Drawn(m0, m1, mode, f) && SameImage(f, g)
    ensures Drawn(m0, m1, mode, g)
  {
  }

  function TopAndBottom(x: int, y: int, w: int, h: int, thick: int, c: Color): Image {
    (px, py) => if Inside(px, py, x, y, w, thick) || Inside(px, py, x, y + h - thick, w, thick) then Some(c) else None
  }

  function Sides(x: int, y: int, w: int, h: int, thick: int, c: Color): Image {
    (px, py) => if || Inside(px, py, x, y + thick, thick, h - thick * 2)
                   || Inside(px, py, x + w - thick, y + thick, thick, h - thick * 2)
                then Some(c) else None
  }

  /** In one of the four bars draw_border paints, areas A, D, B and C of its picture. */
  predicate InBars(px: int, py: int, x: int, y: int, w: int, h: int, thick: int) {
    || Inside(px, py, x, y, w, thick)
    || Inside(px, py, x, y + h - thick, w, thick)
    || Inside(px, py, x, y + thick, thick, h - thick * 2)
    || Inside(px, py, x + w - thick, y + thick, thick, h - thick * 2)
  }

  function FourBars(x: int, y: int, w: int, h: int, thick: int, c: Color): Image {
    (px, py) => if InBars(px, py, x, y, w, h, thick) then Some(c) else None
  }

  /** In the rectangle but not in the one `thick` further in. */
  predicate InBorder(px: int, py: int, x: int, y: int, w: int, h: int, thick: int) {
    Inside(px, py, x, y, w, h) && !Inside(px, py, x + thick, y + thick, w - 2 * thick, h - 2 * thick)
  }

  function Border(x: int, y: int, w: int, h: int, thick: int, c: Color): Image {
    (px, py) => if InBorder(px, py, x, y, w, h, thick) then Some(c) else None
  }

  lemma BorderShape(x: int, y: int, w: int, h: int, thick: int, c: Color)
    requires thick <= h && (thick <= w || h <= 2 * thick)
    ensures SameImage(FourBars(x, y, w, h, thick, c), Border(x, y, w, h, thick, c))
  {
  }

  /** The bars are that border exactly when none of them sticks out. */
  lemma BorderIff(x: int, y: int, w: int, h: int, thick: int, c: Color)
    requires w >= 1 && h >= 1 && thick >= 1
    ensures SameImage(FourBars(x, y, w, h, thick, c), Border(x, y, w, h, thick, c))
            <==> thick <= h && (thick <= w || h <= 2 * thick)
  {
    var f, g := FourBars(x, y, w, h, thick, c), Border(x, y, w, h, thick, c);
    if thick > h {
      assert f(x, y + h) != g(x, y + h);
    } else if thick > w && h > 2 * thick {
      assert f(x + w, y + thick) != g(x + w, y + thick);
    } else {
      BorderShape(x, y, w, h, thick, c);
    }
  }
}
