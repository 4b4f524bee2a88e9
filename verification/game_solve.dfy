/** Every position of the puzzle can be won. */
module GameSolve {
  import opened Game

  function Times(key: nat, n: nat): (r: seq<nat>)
    ensures |r| == n && forall i :: 0 <= i < n ==> r[i] == key
  {
    seq(n, _ => key)
  }

  /** Cursor coordinate `v` after `n` steps to the right or down. */
  function Advanced(v: int, n: nat, limit: nat): int {
    if v + n < limit then v + n else v + n - limit
  }

  lemma {:induction false} RightMoves(g: State, n: nat)
    requires Inv(g) && n < g.nh
    ensures Run(g, Times(KEY_RIGHT, n)) == g.(x := Advanced(g.x, n, g.nh))
    ensures Swaps(g, Times(KEY_RIGHT, n)) == 0
    decreases n
  {
    if n > 0 {
      RightMoves(g, n - 1);
      RunAppend(g, Times(KEY_RIGHT, n - 1), [KEY_RIGHT]);
      assert Times(KEY_RIGHT, n - 1) + [KEY_RIGHT] == Times(KEY_RIGHT, n);
      OneKey(Run(g, Times(KEY_RIGHT, n - 1)), KEY_RIGHT);
    }
  }

  lemma {:induction false} DownMoves(g: State, n: nat)
    requires Inv(g) && n < g.nv
    ensures Run(g, Times(KEY_DOWN, n)) == g.(y := Advanced(g.y, n, g.nv))
    ensures Swaps(g, Times(KEY_DOWN, n)) == 0
    decreases n
  {
    if n > 0 {
      DownMoves(g, n - 1);
      RunAppend(g, Times(KEY_DOWN, n - 1), [KEY_DOWN]);
      assert Times(KEY_DOWN, n - 1) + [KEY_DOWN] == Times(KEY_DOWN, n);
      OneKey(Run(g, Times(KEY_DOWN, n - 1)), KEY_DOWN);
    }
  }

  lemma OneKey(g: State, key: nat)
    requires Inv(g)
    ensures Run(g, [key]) == Step(g, key)
    ensures Swaps(g, [key]) == if key == KEY_SPACE && g.selected then 1 else 0
  {
  }

  /** Moving the cursor: any position can be reached, and nothing else changes. */
  lemma MoveTo(g: State, x: int, y: int) returns (keys: seq<nat>)
    requires Inv(g) && OnGrid(x, y, g.nh, g.nv)
    ensures Run(g, keys) == g.(x := x, y := y) && Swaps(g, keys) == 0
  {
    var dx := if x >= g.x then x - g.x else x - g.x + g.nh;
    var dy := if y >= g.y then y - g.y else y - g.y + g.nv;
    keys := Times(KEY_RIGHT, dx) + Times(KEY_DOWN, dy);
    RightMoves(g, dx);
    var g1 := Run(g, Times(KEY_RIGHT, dx));
    DownMoves(g1, dy);
    RunAppend(g, Times(KEY_RIGHT, dx), Times(KEY_DOWN, dy));
  }

  /** Move, then press SPACE. */
  lemma MoveAndPress(g: State, x: int, y: int) returns (keys: seq<nat>)
    requires Inv(g) && OnGrid(x, y, g.nh, g.nv)
    ensures Run(g, keys) == Step(g.(x := x, y := y), KEY_SPACE)
    ensures Swaps(g, keys) == if g.selected then 1 else 0
  {
    var move := MoveTo(g, x, y);
    keys := move + [KEY_SPACE];
    RunAppend(g, move, [KEY_SPACE]);
    OneKey(Run(g, move), KEY_SPACE);
  }

  /** The grid position of cell `i`. */
  lemma PositionOf(i: nat, nh: nat, nv: nat) returns (x: int, y: int)
    requires i < nh * nv
    ensures OnGrid(x, y, nh, nv) && Cell(x, y, nh) == i
  {
    assert nh > 0;
    x, y := i % nh, i / nh;
    assert i == y * nh + x && y * nh <= i;
    RowBound(y, nv, nh);
  }

  lemma RowBound(y: int, nv: nat, nh: nat)
    requires y * nh < nv * nh
    ensures y < nv
  {
  }

  /** Swapping cells `i` and `j`: one swap, nothing pending afterwards. */
  lemma SwapCells(g: State, i: nat, j: nat) returns (keys: seq<nat>)
    requires Inv(g) && !g.selected && i < |g.block| && j < |g.block|
    ensures var r := Run(g, keys); r.block == Swapped(g.block, i, j) && !r.selected
    ensures Swaps(g, keys) == 1
  {
    var xi, yi := PositionOf(i, g.nh, g.nv);
    var xj, yj := PositionOf(j, g.nh, g.nv);
    var first := MoveAndPress(g, xi, yi);
    var g1 := Run(g, first);
    assert g1 == g.(x := xi, y := yi, selected := true, selX := xi, selY := yi);
    var second := MoveAndPress(g1, xj, yj);
    keys := first + second;
    RunAppend(g, first, second);
    assert Swapped(g.block, j, i) == Swapped(g.block, i, j);
  }

  /** Closing a pending selection on itself leaves the blocks alone. */
  lemma ClosePending(g: State) returns (keys: seq<nat>)
    requires Inv(g) && g.selected
    ensures var r := Run(g, keys); r.block == g.block && !r.selected
    ensures Swaps(g, keys) == 1
  {
    keys := MoveAndPress(g, g.selX, g.selY);
    CellInside(g.selX, g.selY, g.nh, g.nv);
    var c := Cell(g.selX, g.selY, g.nh);
    assert Swapped(g.block, c, c) == g.block;
  }

  /** Cells below `i` are right already: one swap for each further cell at most,
      and none for the last, which has no other block left. */
  lemma {:induction false} SortFrom(g: State, i: nat) returns (keys: seq<nat>)
    requires Inv(g) && !g.selected && i < |g.block| && forall k :: 0 <= k < i ==> g.block[k] == k
    ensures Restored(Run(g, keys).block)
    ensures Swaps(g, keys) <= |g.block| - 1 - i
    decreases |g.block| - i
  {
    var j := FindBlock(g.block, i);
    if i + 1 == |g.block| {
      keys := [];
    } else if j == i {
      keys := SortFrom(g, i + 1);
    } else {
      var swap := SwapCells(g, i, j);
      var rest := SortFrom(Run(g, swap), i + 1);
      RunAppend(g, swap, rest);
      keys := swap + rest;
    }
  }

  /** The block that belongs in cell `i` lies at or after it. */
  lemma FindBlock(block: seq<nat>, i: nat) returns (j: nat)
    requires Permutation(block) && i < |block| && forall k :: 0 <= k < i ==> block[k] == k
    ensures i <= j < |block| && block[j] == i
  {
    assert i in block;
    j :| 0 <= j < |block| && block[j] == i;
  }

  /** From every state of the game, some keys make the main loop leave with the
      picture restored, with at most nr_block - 1 swaps once a pending selection
      is closed. */
  lemma Winnable(g: State) returns (keys: seq<nat>)
    requires Inv(g)
    ensures Play(g, keys).Won? && Restored(Play(g, keys).final.block)
    ensures Swaps(g, keys[..Play(g, keys).used]) <= |g.block| - 1 + if g.selected then 1 else 0
  {
    CellInside(g.x, g.y, g.nh, g.nv);
    var close: seq<nat> := [];
    if g.selected {
      close := ClosePending(g);
    }
    var sort := SortFrom(Run(g, close), 0);
    keys := close + sort;
    RunAppend(g, close, sort);
    PlayIs(g, keys);
    assert keys[..|keys|] == keys;
  }
}
