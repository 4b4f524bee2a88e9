/** Whole frames and the main loop: update_frame and game_mainloop of kernel/game.c. */
module Frame {
  import opened Wrappers
  import opened Bytes
  import opened Video
  import opened Game
  import opened GameRun
  import opened PuzzleVideo
  import opened FramePixels

  const LINE: nat := 6
  const EDGE: nat := 3
  const LINE_COLOR: nat := 0x00_0000
  const CURSOR_COLOR: nat := 0x00_00ff
  const SELECT_COLOR: nat := 0xff_0000

  /** On one of the first `n` grid lines, each `LINE` pixels across its block edge. */
  predicate OnLine(p: int, n: nat) {
    n > 0 && (OnLine(p, n - 1) || (n - 1) * BLOCK - LINE / 2 <= p < (n - 1) * BLOCK - LINE / 2 + LINE)
  }

  function Columns(n: nat, length: nat): Image {
    (x, y) => if OnLine(x, n) && 0 <= y < length then Some(ColorOf(LINE_COLOR)) else None
  }

  function Rows(n: nat, length: nat): Image {
    (x, y) => if OnLine(y, n) && 0 <= x < length then Some(ColorOf(LINE_COLOR)) else None
  }

  /** The line drawn for column `n`, and for row `n`. */
  function ColumnAt(n: nat, length: nat): Image {
    Rect(n * BLOCK - LINE / 2, 0, LINE, length, ColorOf(LINE_COLOR))
  }

  function RowAt(n: nat, length: nat): Image {
    Rect(0, n * BLOCK - LINE / 2, length, LINE, ColorOf(LINE_COLOR))
  }

  lemma ColumnsStep(n: nat, length: nat)
    ensures SameImage(Columns(0, length), NOTHING)
    ensures SameImage(Columns(n + 1, length), Over(Columns(n, length), ColumnAt(n, length)))
  {
    var f0, f1, g := Columns(0, length), Columns(n + 1, length), Over(Columns(n, length), ColumnAt(n, length));
    forall x: int, y: int ensures f0(x, y) == NOTHING(x, y) && f1(x, y) == g(x, y) {
      assert !OnLine(x, 0);
      assert OnLine(x, n + 1) == (OnLine(x, n) || n * BLOCK - LINE / 2 <= x < n * BLOCK - LINE / 2 + LINE);
    }
  }

  lemma RowsStep(n: nat, length: nat)
    ensures SameImage(Rows(0, length), NOTHING)
    ensures SameImage(Rows(n + 1, length), Over(Rows(n, length), RowAt(n, length)))
  {
    var f0, f1, g := Rows(0, length), Rows(n + 1, length), Over(Rows(n, length), RowAt(n, length));
    forall x: int, y: int ensures f0(x, y) == NOTHING(x, y) && f1(x, y) == g(x, y) {
      assert !OnLine(y, 0);
      assert OnLine(y, n + 1) == (OnLine(y, n) || n * BLOCK - LINE / 2 <= y < n * BLOCK - LINE / 2 + LINE);
    }
  }

  function CellBorder(x: int, y: int, color: nat): Image {
    Border(x * BLOCK, y * BLOCK, BLOCK, BLOCK, EDGE, ColorOf(color))
  }

  function PuzzleOf(pic: Picture, g: State): Image
    requires g.nh > 0
  {
    Puzzle(pic, g.block, g.nh, |g.block|)
  }

  function Grid(mode: Mode, nh: nat, nv: nat): Image {
    Over(Columns(nh + 1, mode.yres), Rows(nv + 1, mode.xres))
  }

  function WithGrid(pic: Picture, mode: Mode, g: State): Image
    requires g.nh > 0
  {
    Over(PuzzleOf(pic, g), Grid(mode, g.nh, g.nv))
  }

  /** What update_frame shows of a game state: the puzzle, the grid over it, the
      cursor over that, and a pending selection on top. */
  function FrameOf(pic: Picture, mode: Mode, g: State): Image
    requires g.nh > 0
  {
    var cursor := Over(WithGrid(pic, mode, g), CellBorder(g.x, g.y, CURSOR_COLOR));
    if g.selected then Over(cursor, CellBorder(g.selX, g.selY, SELECT_COLOR)) else cursor
  }

  /** The picture is large enough for the grid. */
  predicate Covers(pic: Picture, nh: nat, nv: nat) {
    Complete(pic) && nh * BLOCK <= pic.w && nv * BLOCK <= pic.h
  }

  /** init_video_buffer */
  method InitVideoBuffer(s: Screen)
    modifies s.buf
    ensures s.buf[..] == Zeros(s.buf.Length)
  {
    for k := 0 to s.buf.Length
      invariant forall j :: 0 <= j < k ==> s.buf[j] == 0
    {
      s.buf[k] := 0;
    }
  }

  method DrawColumns(s: Screen, count: nat)
    requires s.Valid()
    modifies s.buf
    ensures Drawn(old(s.buf[..]), s.buf[..], s.mode, Columns(count, s.mode.yres))
  {
    ghost var m := s.buf[..];
    ColumnsStep(0, s.mode.yres);
    DrawnNothing(m, s.mode, Columns(0, s.mode.yres));
    for i := 0 to count
      invariant Drawn(m, s.buf[..], s.mode, Columns(i, s.mode.yres))
    {
      ghost var m1 := s.buf[..];
      ColumnsStep(i, s.mode.yres);
      s.DrawColumn(i * BLOCK, 0, LINE, s.mode.yres, LINE_COLOR);
      DrawnOver(m, m1, s.buf[..], s.mode, Columns(i, s.mode.yres),
                ColumnAt(i, s.mode.yres), Columns(i + 1, s.mode.yres));
    }
  }

  method DrawRows(s: Screen, count: nat)
    requires s.Valid()
    modifies s.buf
    ensures Drawn(old(s.buf[..]), s.buf[..], s.mode, Rows(count, s.mode.xres))
  {
    ghost var m := s.buf[..];
    RowsStep(0, s.mode.xres);
    DrawnNothing(m, s.mode, Rows(0, s.mode.xres));
    for i := 0 to count
      invariant Drawn(m, s.buf[..], s.mode, Rows(i, s.mode.xres))
    {
      ghost var m1 := s.buf[..];
      RowsStep(i, s.mode.xres);
      s.DrawRow(0, i * BLOCK, LINE, s.mode.xres, LINE_COLOR);
      DrawnOver(m, m1, s.buf[..], s.mode, Rows(i, s.mode.xres),
                RowAt(i, s.mode.xres), Rows(i + 1, s.mode.xres));
    }
  }

  method DrawGrid(s: Screen, nh: nat, nv: nat)
    requires s.Valid()
    modifies s.buf
    ensures Drawn(old(s.buf[..]), s.buf[..], s.mode, Grid(s.mode, nh, nv))
  {
    ghost var m := s.buf[..];
    DrawColumns(s, nh + 1);
    ghost var m1 := s.buf[..];
    DrawRows(s, nv + 1);
    DrawnOver(m, m1, s.buf[..], s.mode, Columns(nh + 1, s.mode.yres), Rows(nv + 1, s.mode.xres), Grid(s.mode, nh, nv));
  }

  /** The puzzle and the grid of update_frame. */
  method DrawBoard(s: Screen, game: GameState, pic: Picture)
    requires s.Valid() && Inv(game.View()) && Covers(pic, game.nh, game.nv)
    modifies s.buf
    ensures Drawn(old(s.buf[..]), s.buf[..], s.mode, WithGrid(pic, s.mode, game.View()))
  {
    ghost var m, g := s.buf[..], game.View();
    DrawPuzzle(s, pic, game.block, game.nh, game.nv);
    ghost var m1 := s.buf[..];
    DrawGrid(s, game.nh, game.nv);
    DrawnOver(m, m1, s.buf[..], s.mode, PuzzleOf(pic, g), Grid(s.mode, g.nh, g.nv), WithGrid(pic, s.mode, g));
  }

  // ----- what that is, pixel by pixel -----

  lemma {:induction false} OnLineIs(p: nat, n: nat)
    ensures OnLine(p, n + 1) <==> NearLine(p, n)
  {
    if n > 0 {
      OnLineIs(p, n - 1);
    }
  }

  lemma EdgeIs(x: nat, y: nat, cx: int, cy: int, color: nat)
    ensures CellBorder(cx, cy, color)(x, y) == if OnEdge(x, y, cx, cy) then Some(ColorOf(color)) else None
  {
  }

  lemma Colors()
    ensures ColorOf(LINE_COLOR) == Color(0, 0, 0) && ColorOf(CURSOR_COLOR) == Color(0, 0, 0xff)
    ensures ColorOf(SELECT_COLOR) == Color(0xff, 0, 0)
  {
  }

  lemma GridIs(mode: Mode, nh: nat, nv: nat, x: nat, y: nat)
    requires x < mode.xres && y < mode.yres
    ensures Grid(mode, nh, nv)(x, y) == if NearLine(x, nh) || NearLine(y, nv) then Some(Color(0, 0, 0)) else None
  {
    OnLineIs(x, nh);
    OnLineIs(y, nv);
    Colors();
  }

  /** Over the board: the edges. */
  lemma FrameAt(pic: Picture, mode: Mode, g: State, x: nat, y: nat)
    requires g.nh > 0 && x < mode.xres && y < mode.yres
    ensures FrameOf(pic, mode, g)(x, y) ==
      if g.selected && OnEdge(x, y, g.selX, g.selY) then Some(Color(0xff, 0, 0))
      else if OnEdge(x, y, g.x, g.y) then Some(Color(0, 0, 0xff))
      else if NearLine(x, g.nh) || NearLine(y, g.nv) then Some(Color(0, 0, 0))
      else PuzzleOf(pic, g)(x, y)
  {
    EdgeIs(x, y, g.x, g.y, CURSOR_COLOR);
    EdgeIs(x, y, g.selX, g.selY, SELECT_COLOR);
    GridIs(mode, g.nh, g.nv, x, y);
    Colors();
  }

  /** The cell under a pixel. */
  lemma CellUnder(x: nat, y: nat, nh: nat, nv: nat)
    requires nh > 0 && x / 100 < nh
    ensures 0 <= y / 100 * nh + x / 100 && (y / 100 * nh + x / 100 < nh * nv <==> y / 100 < nv)
  {
    CellNat(x / 100, y / 100, nh);
    if y / 100 < nv {
      CellInside(x / 100, y / 100, nh, nv);
    } else {
      ProductAtLeast(y / 100, nv, nh);
    }
  }

  lemma BlockAt(pic: Picture, g: State, x: nat, y: nat)
    requires Inv(g) && Covers(pic, g.nh, g.nv)
    ensures PuzzleOf(pic, g)(x, y).Some? <==> x < 100 * g.nh && y < 100 * g.nv
    ensures PuzzleOf(pic, g)(x, y).Some? ==>
      var cell := y / 100 * g.nh + x / 100;
      && 0 <= cell < |g.block|
      && var v := g.block[cell];
         PuzzleOf(pic, g)(x, y) == Some(PicAt(pic, v % g.nh * 100 + x % 100, v / g.nh * 100 + y % 100))
  {
    if x / 100 < g.nh {
      CellUnder(x, y, g.nh, g.nv);
      if y / 100 < g.nv {
        RowColDivMod(g.block[y / 100 * g.nh + x / 100], g.nh);
      }
    }
  }

  /** A pixel of a block lies in the picture. */
  lemma BlockPixel(pic: Picture, v: nat, nh: nat, nv: nat, x: nat, y: nat)
    requires v < nh * nv && Covers(pic, nh, nv)
    ensures nh > 0
    ensures var at := ((v / nh * 100 + y % 100) * pic.w + (v % nh * 100 + x % 100)) * 3;
            && 0 <= at && at + 3 <= |pic.bytes|
            && var c := PicAt(pic, v % nh * 100 + x % 100, v / nh * 100 + y % 100);
               [c.b, c.g, c.r] == pic.bytes[at..at + 3]
  {
    BlockFits(pic, v, nh, nv);
    RowColDivMod(v, nh);
    PicBytes(pic, v % nh * 100 + x % 100, v / nh * 100 + y % 100);
  }

  lemma ShowsIt(buf: seq<byte>, k: nat, pic: Picture, g: State, x: nat, y: nat)
    requires Inv(g) && Covers(pic, g.nh, g.nv) && x < 100 * g.nh && y < 100 * g.nv && k + 3 <= |buf|
    requires PuzzleOf(pic, g)(x, y).Some? && var c := PuzzleOf(pic, g)(x, y).value; buf[k..k + 3] == [c.b, c.g, c.r]
    ensures ShowsBlock(buf, k, pic, g, x, y)
  {
    BlockAt(pic, g, x, y);
    BlockPixel(pic, g.block[y / 100 * g.nh + x / 100], g.nh, g.nv, x, y);
  }

  lemma PixelIs(buf: seq<byte>, pic: Picture, mode: Mode, g: State, x: nat, y: nat)
    requires Inv(g) && Covers(pic, g.nh, g.nv) && Fitting(mode, |buf|) && x < mode.xres && y < mode.yres
    requires Drawn(Zeros(|buf|), buf, mode, FrameOf(pic, mode, g))
    ensures PixelShown(buf, mode, pic, g, x, y)
  {
    var k := PixelAt(mode, x, y);
    DrawnPixel(Zeros(|buf|), buf, mode, FrameOf(pic, mode, g), x, y);
    FrameAt(pic, mode, g, x, y);
    BlockAt(pic, g, x, y);
    assert Zeros(|buf|)[k..k + 3] == [0, 0, 0];
    if PuzzleOf(pic, g)(x, y).Some? && FrameOf(pic, mode, g)(x, y) == PuzzleOf(pic, g)(x, y) {
      ShowsIt(buf, k, pic, g, x, y);
    }
  }

  lemma NothingElse(buf: seq<byte>, mode: Mode, img: Image)
    requires Drawn(Zeros(|buf|), buf, mode, img)
    ensures NoMore(buf, mode)
  {
    forall k: nat | k < |buf| && (k % mode.pitch >= 3 * mode.xres || k / mode.pitch >= mode.yres) ensures buf[k] == 0 {
      DrawnElsewhere(Zeros(|buf|), buf, mode, img, k);
    }
  }

  lemma FrameIs(buf: seq<byte>, pic: Picture, mode: Mode, g: State)
    requires Inv(g) && Covers(pic, g.nh, g.nv) && Fitting(mode, |buf|)
    requires Drawn(Zeros(|buf|), buf, mode, FrameOf(pic, mode, g))
    ensures FrameShown(buf, mode, pic, g)
  {
    forall x: nat, y: nat | x < mode.xres && y < mode.yres ensures PixelShown(buf, mode, pic, g, x, y) {
      PixelIs(buf, pic, mode, g, x, y);
    }
    NothingElse(buf, mode, FrameOf(pic, mode, g));
  }

  lemma PicturePixelIs(buf: seq<byte>, pic: Picture, mode: Mode, x: nat, y: nat)
    requires Complete(pic) && Fitting(mode, |buf|) && x < mode.xres && y < mode.yres
    requires Drawn(Zeros(|buf|), buf, mode, Pasted(pic, 0, 0, pic.w, pic.h, 0, 0))
    ensures PicturePixel(buf, mode, pic, x, y)
  {
    var k := PixelAt(mode, x, y);
    DrawnPixel(Zeros(|buf|), buf, mode, Pasted(pic, 0, 0, pic.w, pic.h, 0, 0), x, y);
    assert Zeros(|buf|)[k..k + 3] == [0, 0, 0];
    if x < pic.w && y < pic.h {
      PicBytes(pic, x, y);
    }
  }

  lemma PictureIs(buf: seq<byte>, pic: Picture, mode: Mode)
    requires Complete(pic) && Fitting(mode, |buf|)
    requires Drawn(Zeros(|buf|), buf, mode, Pasted(pic, 0, 0, pic.w, pic.h, 0, 0))
    ensures PictureShown(buf, mode, pic)
  {
    forall x: nat, y: nat | x < mode.xres && y < mode.yres ensures PicturePixel(buf, mode, pic, x, y) {
      PicturePixelIs(buf, pic, mode, x, y);
    }
    NothingElse(buf, mode, Pasted(pic, 0, 0, pic.w, pic.h, 0, 0));
  }

  /** update_frame */
  method UpdateFrame(s: Screen, game: GameState, pic: Picture)
    requires s.Valid() && Inv(game.View()) && Covers(pic, game.nh, game.nv)
    modifies s.buf
    ensures Drawn(Zeros(s.buf.Length), s.buf[..], s.mode, FrameOf(pic, s.mode, game.View()))
    ensures game.nh > 0 && FrameShown(s.buf[..], s.mode, pic, game.View())
  {
    ghost var z, g := Zeros(s.buf.Length), game.View();
    InitVideoBuffer(s);
    DrawBoard(s, game, pic);
    ghost var m1, board := s.buf[..], WithGrid(pic, s.mode, g);
    s.DrawBorder(game.blockX * BLOCK, game.blockY * BLOCK, BLOCK, BLOCK, EDGE, CURSOR_COLOR);
    ghost var cursor := Over(board, CellBorder(g.x, g.y, CURSOR_COLOR));
    DrawnOver(z, m1, s.buf[..], s.mode, board, CellBorder(g.x, g.y, CURSOR_COLOR), cursor);
    if game.selected {
      ghost var m2 := s.buf[..];
      s.DrawBorder(game.selX * BLOCK, game.selY * BLOCK, BLOCK, BLOCK, EDGE, SELECT_COLOR);
      DrawnOver(z, m2, s.buf[..], s.mode, cursor, CellBorder(g.selX, g.selY, SELECT_COLOR), FrameOf(pic, s.mode, g));
    }
    FrameIs(s.buf[..], pic, s.mode, g);
  }

  /** The loop of game_mainloop on the keys pressed, and the picture it ends with.
      Without a win the screen shows the state reached. */
  method MainLoop(s: Screen, game: GameState, pic: Picture, keys: seq<nat>) returns (won: bool, ghost used: nat)
    requires s.Valid() && Inv(game.View()) && Covers(pic, game.nh, game.nv)
    modifies game, game.block, s.buf
    ensures Inv(game.View())
    ensures match Play(old(game.View()), keys)
            case Won(f, n) =>
              && won && used == n && game.View() == f && Restored(game.block[..])
              && Drawn(Zeros(s.buf.Length), s.buf[..], s.mode, Pasted(pic, 0, 0, pic.w, pic.h, 0, 0))
              && PictureShown(s.buf[..], s.mode, pic)
            case Waiting(g) =>
              && !won && game.View() == g && g.nh > 0
              && Drawn(Zeros(s.buf.Length), s.buf[..], s.mode, FrameOf(pic, s.mode, g))
              && FrameShown(s.buf[..], s.mode, pic, g)
  {
    won, used := PlayKeys(s, game, pic, keys);
    if won {
      InitVideoBuffer(s);
      Paste(s, pic, 0, 0, pic.w, pic.h, 0, 0);
      PictureIs(s.buf[..], pic, s.mode);
    } else {
      FrameIs(s.buf[..], pic, s.mode, game.View());
    }
  }

  /** One round of the loop before the key: draw, then test. */
  method ShowAndCheck(s: Screen, game: GameState, pic: Picture) returns (valid: bool)
    requires s.Valid() && Inv(game.View()) && Covers(pic, game.nh, game.nv)
    modifies s.buf
    ensures valid <==> Sorted(game.block[..])
    ensures valid ==> Restored(game.block[..])
    ensures Drawn(Zeros(s.buf.Length), s.buf[..], s.mode, FrameOf(pic, s.mode, game.View()))
  {
    UpdateFrame(s, game, pic);
    SortedIffRestored(game.block[..]);
    valid := game.CheckValid();
  }

  /** The loop has come from `start` to `g` after `pos` keys. */
  ghost predicate PlayedTo(start: State, keys: seq<nat>, g: State, pos: nat) {
    Inv(start) && Inv(g) && pos <= |keys| && Play(start, keys) == Later(Play(g, keys[pos..]), pos)
  }

  lemma PlayOn(start: State, keys: seq<nat>, g: State, pos: nat)
    requires PlayedTo(start, keys, g, pos) && pos < |keys| && !Sorted(g.block)
    ensures PlayedTo(start, keys, Step(g, keys[pos]), pos + 1)
  {
    StepKeeps(g, keys[pos]);
    assert keys[pos..][1..] == keys[pos + 1..];
  }

  lemma PlayEnds(start: State, keys: seq<nat>, g: State, pos: nat)
    requires PlayedTo(start, keys, g, pos) && (Sorted(g.block) || pos == |keys|)
    ensures Play(start, keys) == if Sorted(g.block) then Won(g, pos) else Waiting(g)
  {
  }

  method PlayKeys(s: Screen, game: GameState, pic: Picture, keys: seq<nat>) returns (won: bool, ghost used: nat)
    requires s.Valid() && Inv(game.View()) && Covers(pic, game.nh, game.nv)
    modifies game, game.block, s.buf
    ensures Inv(game.View())
    ensures Play(old(game.View()), keys) == if won then Won(game.View(), used) else Waiting(game.View())
    ensures won ==> Restored(game.block[..])
    ensures Drawn(Zeros(s.buf.Length), s.buf[..], s.mode, FrameOf(pic, s.mode, game.View()))
  {
    ghost var start := game.View();
    var pos := 0;
    assert keys[0..] == keys;
    while true
      invariant 0 <= pos <= |keys| && Inv(game.View()) && PlayedTo(start, keys, game.View(), pos)
      decreases |keys| - pos
    {
      won := ShowAndCheck(s, game, pic);
      if won || pos == |keys| {
        PlayEnds(start, keys, game.View(), pos);
        return won, pos;
      }
      PlayOn(start, keys, game.View(), pos);
      game.UpdateGameState(keys[pos]);
      pos := pos + 1;
    }
  }

  // ----- the game as a whole -----

  /** Below the grid, the cursor and the selection, a won game's last frame
      already shows the picture. */
  lemma WonFrameShowsPicture(pic: Picture, mode: Mode, g: State, x: int, y: int)
    requires Inv(g) && Sorted(g.block) && Covers(pic, g.nh, g.nv)
    requires Inside(x, y, 0, 0, g.nh * BLOCK, g.nv * BLOCK)
    requires !OnLine(x, g.nh + 1) && !OnLine(y, g.nv + 1)
    requires CellBorder(g.x, g.y, CURSOR_COLOR)(x, y) == None
    requires g.selected ==> CellBorder(g.selX, g.selY, SELECT_COLOR)(x, y) == None
    ensures FrameOf(pic, mode, g)(x, y) == Some(PicAt(pic, x, y))
  {
    SortedIffRestored(g.block);
    RestoredShowsPicture(pic, g.block, g.nh, g.nv);
    assert PuzzleOf(pic, g)(x, y) == Pasted(pic, 0, 0, g.nh * BLOCK, g.nv * BLOCK, 0, 0)(x, y);
  }
}
