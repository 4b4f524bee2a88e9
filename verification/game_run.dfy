/** The puzzle as it runs: the functions of kernel/game.c on a mutable state. */
module GameRun {
  import opened Game

  class GameState {
    const block: array<nat>
    const nh: nat
    const nv: nat
    var blockX: int
    var blockY: int
    var selX: int
    var selY: int
    var selected: bool

    function View(): State
      reads this, block
    {
      State(block[..], blockX, blockY, selX, selY, selected, nh, nv)
    }

    /** The state game_mainloop starts from, for a picture of at least one block:
        the blocks in reverse order. */
    constructor (imageW: nat, imageH: nat)
      requires imageW >= BLOCK && imageH >= BLOCK
      ensures fresh(block) && Inv(View()) && View() == Initial(imageW / BLOCK, imageH / BLOCK)
    {
      nh, nv := imageW / BLOCK, imageH / BLOCK;
      blockX, blockY, selX, selY, selected := 0, 0, 0, 0, false;
      var nrBlock := (imageW / BLOCK) * (imageH / BLOCK);
      var cells := new nat[nrBlock];
      for i := 0 to nrBlock
        invariant forall k :: 0 <= k < i ==> cells[k] == nrBlock - 1 - k
      {
        cells[i] := nrBlock - 1 - i;
      }
      block := cells;
      new;
      InitialInv(nh, nv);
      assert View() == Initial(nh, nv);
    }

    /** update_game_state, for the key get_key returns. */
    method UpdateGameState(scancode: nat)
      requires Inv(View())
      modifies this, block
      ensures View() == Step(old(View()), scancode) && Inv(View())
    {
      StepKeeps(View(), scancode);
      if scancode == KEY_SPACE {
        if !selected {
          selected := true;
          selX := blockX;
          selY := blockY;
        } else {
          selected := false;
          CellInside(blockX, blockY, nh, nv);
          CellInside(selX, selY, nh, nv);
          var first := blockY * nh + blockX;
          var second := selY * nh + selX;
          block[first], block[second] := block[second], block[first];
        }
      }
      if scancode == KEY_DOWN {
        blockY := blockY + 1;
      } else if scancode == KEY_UP {
        blockY := blockY - 1;
      } else if scancode == KEY_LEFT {
        blockX := blockX - 1;
      } else if scancode == KEY_RIGHT {
        blockX := blockX + 1;
      }
      if blockY >= nv {
        blockY := 0;
      } else if blockY < 0 {
        blockY := nv - 1;
      }
      if blockX >= nh {
        blockX := 0;
      } else if blockX < 0 {
        blockX := nh - 1;
      }
    }

    /** check_valid */
    method CheckValid() returns (valid: bool)
      requires Inv(View())
      ensures valid <==> Restored(block[..])
    {
      SortedIffRestored(block[..]);
      var nrBlock := nh * nv;
      var i := 0;
      while i < nrBlock - 1
        invariant 0 <= i && (i == 0 || i < nrBlock)
        invariant forall k :: 0 <= k < i ==> block[k] <= block[k + 1]
      {
        if block[i] > block[i + 1] {
          return false;
        }
        i := i + 1;
      }
      return true;
    }
  }

  function Initial(nh: nat, nv: nat): State {
    State(seq(nh * nv, i => nh * nv - 1 - i), 0, 0, 0, 0, false, nh, nv)
  }

  lemma InitialInv(nh: nat, nv: nat)
    requires nh >= 1 && nv >= 1
    ensures Inv(Initial(nh, nv))
  {
    var n, b := nh * nv, Initial(nh, nv).block;
    forall v: nat | v < n ensures v in b {
      assert b[n - 1 - v] == v;
    }
  }
}
