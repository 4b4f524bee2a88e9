/** The rules of kernel/game.c key by key, on the scancodes of kernel/keyboard.h. */
module GameKeys {
  import opened Game
  import opened GameRun

  /** Left 0xE04B, right 0xE04D, up 0xE048, down 0xE050: the cursor goes one step and
      comes in again on the other side; nothing else changes. */
  lemma KeyMoves(g: State)
    requires Placed(g)
    ensures Step(g, 0xE04B) == g.(x := (g.x + g.nh - 1) % g.nh)
    ensures Step(g, 0xE04D) == g.(x := (g.x + 1) % g.nh)
    ensures Step(g, 0xE048) == g.(y := (g.y + g.nv - 1) % g.nv)
    ensures Step(g, 0xE050) == g.(y := (g.y + 1) % g.nv)
  {
    BackOne(g.x, g.nh);
    BackOne(g.y, g.nv);
    ForwardOne(g.x, g.nh);
    ForwardOne(g.y, g.nv);
  }

  lemma BackOne(v: nat, n: nat)
    requires v < n
    ensures (v + n - 1) % n == if v == 0 then n - 1 else v - 1
  {
    if v > 0 {
      OnceAround(v + n - 1, n);
    }
  }

  lemma OnceAround(a: nat, n: nat)
    requires n <= a < 2 * n
    ensures a % n == a - n
  {
    var q := a / n;
    assert a == q * n + a % n;
    if q >= 2 {
      TimesAtLeast(q, 2, n);
      assert false;
    } else if q <= 0 {
      TimesAtLeast(0, q, n);
      assert false;
    }
  }

  lemma TimesAtLeast(a: int, b: int, n: nat)
    requires a >= b
    ensures a * n >= b * n
  {
  }

  lemma ForwardOne(v: nat, n: nat)
    requires v < n
    ensures (v + 1) % n == if v + 1 == n then 0 else v + 1
  {
  }

  /** SPACE, 0x39, selects the cell under the cursor, or exchanges it with the selected
      one; cells count row by row. */
  lemma SpaceSelects(g: State)
    requires Placed(g)
    ensures !g.selected ==> Step(g, 0x39) == g.(selected := true, selX := g.x, selY := g.y)
    ensures g.selected ==>
      var i, j, r := g.y * g.nh + g.x, g.selY * g.nh + g.selX, Step(g, 0x39);
      && 0 <= i < |g.block| && 0 <= j < |g.block| && |r.block| == |g.block|
      && r == g.(selected := false, block := r.block) && r.block[i] == g.block[j] && r.block[j] == g.block[i]
      && forall k :: 0 <= k < |g.block| && k != i && k != j ==> r.block[k] == g.block[k]
  {
    if g.selected {
      CellInside(g.x, g.y, g.nh, g.nv);
      CellInside(g.selX, g.selY, g.nh, g.nv);
    }
  }

  /** Any other code changes nothing. */
  lemma OtherKeys(g: State, key: nat)
    requires Placed(g) && key !in [0x39, 0xE048, 0xE04B, 0xE04D, 0xE050]
    ensures Step(g, key) == g
  {
  }

  /** Left undoes right and right undoes left; up and down likewise. */
  lemma KeysUndo(g: State)
    requires Inv(g)
    ensures Placed(Step(g, 0xE04D)) && Step(Step(g, 0xE04D), 0xE04B) == g
    ensures Placed(Step(g, 0xE04B)) && Step(Step(g, 0xE04B), 0xE04D) == g
    ensures Placed(Step(g, 0xE050)) && Step(Step(g, 0xE050), 0xE048) == g
    ensures Placed(Step(g, 0xE048)) && Step(Step(g, 0xE048), 0xE050) == g
  {
    StepKeeps(g, 0xE04D);
    StepKeeps(g, 0xE04B);
    StepKeeps(g, 0xE050);
    StepKeeps(g, 0xE048);
  }

  /** SPACE twice on the same cell leaves the blocks alone. */
  lemma SpaceTwice(g: State)
    requires Inv(g) && !g.selected
    ensures Placed(Step(g, 0x39)) && Step(Step(g, 0x39), 0x39) == g.(selX := g.x, selY := g.y)
  {
    StepKeeps(g, 0x39);
    CellInside(g.x, g.y, g.nh, g.nv);
    var i := g.y * g.nh + g.x;
    assert Swapped(g.block, i, i) == g.block;
  }

  /** The start, for a picture of these pixels: blocks of 100 by 100, in reverse order. */
  lemma StartIs(imageW: nat, imageH: nat)
    ensures var g := Initial(imageW / BLOCK, imageH / BLOCK);
            && g.nh == imageW / 100 && g.nv == imageH / 100 && |g.block| == g.nh * g.nv
            && (forall i :: 0 <= i < |g.block| ==> g.block[i] == |g.block| - 1 - i)
            && g.x == g.y == 0 && !g.selected
  {
  }
}
