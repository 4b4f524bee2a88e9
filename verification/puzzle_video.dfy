/** The picture on the screen: the drawing loops of kernel/game.c. */
module PuzzleVideo {
  import opened Wrappers
  import opened Bytes
  import opened Video
  import opened Game

  /** A picture of `w` by `h` pixels, three bytes each, line by line. */
  datatype Picture = Picture(bytes: seq<byte>, w: nat, h: nat)

  predicate Complete(pic: Picture) { 3 * (pic.h * pic.w) <= |pic.bytes| }

  /** The colour at (x, y); black outside. */
  function PicAt(pic: Picture, x: int, y: int): Color {
    if 0 <= x < pic.w && 0 <= y < pic.h && 0 <= (y * pic.w + x) * 3 && (y * pic.w + x) * 3 + 3 <= |pic.bytes| then
      var i := (y * pic.w + x) * 3;
      Color(pic.bytes[i], pic.bytes[i + 1], pic.bytes[i + 2])
    else Color(0, 0, 0)
  }

  lemma PicInside(pic: Picture, x: int, y: int)
    requires Complete(pic) && 0 <= x < pic.w && 0 <= y < pic.h
    ensures 0 <= (y * pic.w + x) * 3 && (y * pic.w + x) * 3 + 3 <= |pic.bytes|
  {
    assert y * pic.w + pic.w == (y + 1) * pic.w <= pic.h * pic.w;
    assert y * pic.w >= 0;
  }

  /** They are the picture's bytes. */
  lemma PicBytes(pic: Picture, x: int, y: int)
    requires Complete(pic) && 0 <= x < pic.w && 0 <= y < pic.h
    ensures var at, c := (y * pic.w + x) * 3, PicAt(pic, x, y);
            0 <= at && at + 3 <= |pic.bytes| && pic.bytes[at..at + 3] == [c.b, c.g, c.r]
  {
    PicInside(pic, x, y);
  }

  /** The part of the picture from (srcX, srcY) on, `w` by `h`, put at (x0, y0). */
  function Pasted(pic: Picture, x0: int, y0: int, w: int, h: int, srcX: int, srcY: int): Image {
    (x, y) => if Inside(x, y, x0, y0, w, h) then Some(PicAt(pic, srcX + (x - x0), srcY + (y - y0))) else None
  }

  /** Every picture coordinate read lies in the picture. */
  predicate Fits(pic: Picture, w: nat, h: nat, srcX: int, srcY: int) {
    0 <= srcX && srcX + w <= pic.w && 0 <= srcY && srcY + h <= pic.h
  }

  /** get_color, in the form draw_pixel takes. */
  method GetColor(pic: Picture, x: int, y: int) returns (color: nat)
    requires Complete(pic) && 0 <= x < pic.w && 0 <= y < pic.h
    ensures ColorOf(color) == PicAt(pic, x, y)
  {
    PicInside(pic, x, y);
    var index := (y * pic.w + x) * 3;
    color := Packed(pic.bytes[index], pic.bytes[index + 1], pic.bytes[index + 2]);
  }

  /** The pixel loops that copy part of the picture to the screen. */
  method Paste(s: Screen, pic: Picture, x0: int, y0: int, w: nat, h: nat, srcX: int, srcY: int)
    requires s.Valid() && Complete(pic) && Fits(pic, w, h, srcX, srcY)
    modifies s.buf
    ensures Drawn(old(s.buf[..]), s.buf[..], s.mode, Pasted(pic, x0, y0, w, h, srcX, srcY))
  {
    ghost var m := s.buf[..];
    DrawnNothing(m, s.mode, Pasted(pic, x0, y0, w, 0, srcX, srcY));
    for offY := 0 to h
      invariant Drawn(m, s.buf[..], s.mode, Pasted(pic, x0, y0, w, offY, srcX, srcY))
    {
      ghost var m1 := s.buf[..];
      PasteLine(s, pic, x0, y0 + offY, w, srcX, srcY + offY);
      DrawnOver(m, m1, s.buf[..], s.mode, Pasted(pic, x0, y0, w, offY, srcX, srcY),
                Pasted(pic, x0, y0 + offY, w, 1, srcX, srcY + offY), Pasted(pic, x0, y0, w, offY + 1, srcX, srcY));
    }
  }

  method PasteLine(s: Screen, pic: Picture, x0: int, y0: int, w: nat, srcX: int, srcY: int)
    requires s.Valid() && Complete(pic) && Fits(pic, w, 1, srcX, srcY)
    modifies s.buf
    ensures Drawn(old(s.buf[..]), s.buf[..], s.mode, Pasted(pic, x0, y0, w, 1, srcX, srcY))
  {
    ghost var m := s.buf[..];
    DrawnNothing(m, s.mode, Pasted(pic, x0, y0, 0, 1, srcX, srcY));
    for offX := 0 to w
      invariant Drawn(m, s.buf[..], s.mode, Pasted(pic, x0, y0, offX, 1, srcX, srcY))
    {
      ghost var m1 := s.buf[..];
      var color := GetColor(pic, srcX + offX, srcY);
      s.DrawPixel(x0 + offX, y0, color);
      DrawnOver(m, m1, s.buf[..], s.mode, Pasted(pic, x0, y0, offX, 1, srcX, srcY),
                Rect(x0 + offX, y0, 1, 1, ColorOf(color)), Pasted(pic, x0, y0, offX + 1, 1, srcX, srcY));
    }
  }

  // ----- the puzzle -----

  /** The picture as the first `count` cells show it: cell `i` shows block `block[i]`. */
  function Puzzle(pic: Picture, block: seq<nat>, nh: nat, count: nat): Image
    requires count <= |block| && nh > 0
  {
    (x, y) =>
      if x < 0 || y < 0 || x / BLOCK >= nh || y / BLOCK * nh + x / BLOCK >= count then None
      else CellShows(pic, block, nh, count, x, y)
  }

  function CellShows(pic: Picture, block: seq<nat>, nh: nat, count: nat, x: nat, y: nat): Option<Color>
    requires count <= |block| && nh > 0 && y / BLOCK * nh + x / BLOCK < count
  {
    CellNat(x / BLOCK, y / BLOCK, nh);
    var v := block[y / BLOCK * nh + x / BLOCK];
    Some(PicAt(pic, ColOf(v, nh) * BLOCK + x % BLOCK, RowOf(v, nh) * BLOCK + y % BLOCK))
  }

  lemma CellNat(x: nat, y: nat, nh: nat)
    ensures 0 <= y * nh + x
  {
  }

  lemma PuzzleStep(pic: Picture, block: seq<nat>, nh: nat, i: nat)
    requires i < |block| && nh > 0
    ensures var v := block[i];
            SameImage(Puzzle(pic, block, nh, i + 1),
                      Over(Puzzle(pic, block, nh, i),
                           Pasted(pic, ColOf(i, nh) * BLOCK, RowOf(i, nh) * BLOCK, BLOCK, BLOCK,
                                  ColOf(v, nh) * BLOCK, RowOf(v, nh) * BLOCK)))
  {
    var v := block[i];
    var col, row := ColOf(i, nh), RowOf(i, nh);
    RowColJoin(i, nh);
    forall x: int, y: int
      ensures Puzzle(pic, block, nh, i + 1)(x, y)
           == Over(Puzzle(pic, block, nh, i),
                   Pasted(pic, col * BLOCK, row * BLOCK, BLOCK, BLOCK,
                          ColOf(v, nh) * BLOCK, RowOf(v, nh) * BLOCK))(x, y)
    {
      if x >= 0 && y >= 0 && x / BLOCK < nh {
        RowColSplit(y / BLOCK, x / BLOCK, nh);
        assert y / BLOCK * nh + x / BLOCK == i <==> x / BLOCK == col && y / BLOCK == row;
      }
      assert Inside(x, y, col * BLOCK, row * BLOCK, BLOCK, BLOCK)
        <==> x >= 0 && y >= 0 && x / BLOCK == col && y / BLOCK == row;
    }
  }

  /** A block of a permutation lies in the picture. */
  lemma BlockFits(pic: Picture, v: nat, nh: nat, nv: nat)
    requires v < nh * nv && nh * BLOCK <= pic.w && nv * BLOCK <= pic.h
    ensures nh > 0 && Fits(pic, BLOCK, BLOCK, ColOf(v, nh) * BLOCK, RowOf(v, nh) * BLOCK)
  {
    assert nh > 0;
    RowColJoin(v, nh);
    if RowOf(v, nh) >= nv {
      ProductAtLeast(RowOf(v, nh), nv, nh);
    }
  }

  lemma ProductAtLeast(a: nat, b: nat, c: nat)
    requires a >= b
    ensures a * c >= b * c
  {
  }

  /** The puzzle loops of update_frame: each block of the picture is copied to the
      cell the block array gives it. */
  method DrawPuzzle(s: Screen, pic: Picture, block: array<nat>, nh: nat, nv: nat)
    requires s.Valid() && Complete(pic) && nh >= 1 && nh * BLOCK <= pic.w && nv * BLOCK <= pic.h
    requires block.Length == nh * nv && Permutation(block[..])
    modifies s.buf
    ensures Drawn(old(s.buf[..]), s.buf[..], s.mode, Puzzle(pic, block[..], nh, block.Length))
  {
    ghost var m, cells := s.buf[..], block[..];
    DrawnNothing(m, s.mode, Puzzle(pic, cells, nh, 0));
    var nrBlock := nh * nv;
    for i := 0 to nrBlock
      invariant Drawn(m, s.buf[..], s.mode, Puzzle(pic, cells, nh, i))
    {
      ghost var m1 := s.buf[..];
      var v := block[i];
      RowColDivMod(i, nh);
      RowColDivMod(v, nh);
      BlockFits(pic, v, nh, nv);
      Paste(s, pic, i % nh * BLOCK, i / nh * BLOCK, BLOCK, BLOCK, v % nh * BLOCK, v / nh * BLOCK);
      PuzzleStep(pic, cells, nh, i);
      DrawnOver(m, m1, s.buf[..], s.mode, Puzzle(pic, cells, nh, i),
                Pasted(pic, ColOf(i, nh) * BLOCK, RowOf(i, nh) * BLOCK, BLOCK, BLOCK,
                       ColOf(v, nh) * BLOCK, RowOf(v, nh) * BLOCK),
                Puzzle(pic, cells, nh, i + 1));
    }
  }

  /** With every block in place the puzzle is the picture itself, on the grid. */
  lemma RestoredShowsPicture(pic: Picture, block: seq<nat>, nh: nat, nv: nat)
    requires nh >= 1 && |block| == nh * nv && Restored(block)
    ensures SameImage(Puzzle(pic, block, nh, |block|), Pasted(pic, 0, 0, nh * BLOCK, nv * BLOCK, 0, 0))
  {
    forall x: int, y: int
      ensures Puzzle(pic, block, nh, |block|)(x, y) == Pasted(pic, 0, 0, nh * BLOCK, nv * BLOCK, 0, 0)(x, y)
    {
      if x >= 0 && y >= 0 && x / BLOCK < nh {
        RowColSplit(y / BLOCK, x / BLOCK, nh);
        CellNat(x / BLOCK, y / BLOCK, nh);
        if y / BLOCK < nv {
          CellInside(x / BLOCK, y / BLOCK, nh, nv);
        } else {
          ProductAtLeast(y / BLOCK, nv, nh);
        }
      }
    }
  }
}
