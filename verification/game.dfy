/** The sliding-picture puzzle: kernel/game.c. */
module Game {

  const KEY_UP: nat := 0xE048
  const KEY_DOWN: nat := 0xE050
  const KEY_LEFT: nat := 0xE04B
  const KEY_RIGHT: nat := 0xE04D
  const KEY_SPACE: nat := 0x39

  /** The side of a block, in pixels. */
  const BLOCK: nat := 100

  /** The fields of `GameState` the rules use: cursor, selection, grid. */
  datatype State = State(block: seq<nat>, x: int, y: int, selX: int, selY: int, selected: bool, nh: nat, nv: nat)

  // ----- the rules -----

  function Swapped<T>(s: seq<T>, i: nat, j: nat): (r: seq<T>)
    requires i < |s| && j < |s|
    ensures |r| == |s| && r[i] == s[j] && r[j] == s[i]
    ensures forall k :: 0 <= k < |s| && k != i && k != j ==> r[k] == s[k]
  {
    s[i := s[j]][j := s[i]]
  }

  /** The cell index of grid position (x, y). */
  function Cell(x: int, y: int, nh: nat): int { y * nh + x }

  predicate OnGrid(x: int, y: int, nh: nat, nv: nat) { 0 <= x < nh && 0 <= y < nv }

  lemma CellInside(x: int, y: int, nh: nat, nv: nat)
    requires OnGrid(x, y, nh, nv)
    ensures 0 <= Cell(x, y, nh) < nh * nv
  {
    assert y * nh + nh == (y + 1) * nh <= nv * nh;
    assert 0 <= y * nh;
  }

  predicate Placed(g: State) {
    && |g.block| == g.nh * g.nv && OnGrid(g.x, g.y, g.nh, g.nv)
    && (g.selected ==> OnGrid(g.selX, g.selY, g.nh, g.nv))
  }

  function Wrap(v: int, limit: nat): int {
    if v >= limit then 0 else if v < 0 then limit - 1 else v
  }

  /** The block under the cursor and the selected one change places. */
  function Exchanged(g: State): State
    requires Placed(g) && g.selected
  {
    CellInside(g.x, g.y, g.nh, g.nv);
    CellInside(g.selX, g.selY, g.nh, g.nv);
    g.(selected := false, block := Swapped(g.block, Cell(g.x, g.y, g.nh), Cell(g.selX, g.selY, g.nh)))
  }

  /** update_game_state for one key. */
  function Step(g: State, key: nat): State
    requires Placed(g)
  {
    var g1 :=
      if key != KEY_SPACE then g
      else if !g.selected then g.(selected := true, selX := g.x, selY := g.y)
      else Exchanged(g);
    var y := if key == KEY_DOWN then g.y + 1 else if key == KEY_UP then g.y - 1 else g.y;
    var x := if key == KEY_LEFT then g.x - 1 else if key == KEY_RIGHT then g.x + 1 else g.x;
    g1.(x := Wrap(x, g.nh), y := Wrap(y, g.nv))
  }

  /** check_valid */
  predicate Sorted(block: seq<nat>) {
    forall i :: 0 <= i < |block| - 1 ==> block[i] <= block[i + 1]
  }

  // ----- what every run keeps -----

  /** Every block is there exactly once. */
  predicate Permutation(block: seq<nat>) {
    && (forall i :: 0 <= i < |block| ==> block[i] < |block|)
    && (forall i, j :: 0 <= i < j < |block| ==> block[i] != block[j])
    && (forall v: nat :: v < |block| ==> v in block)
  }

  predicate Inv(g: State) {
    Placed(g) && Permutation(g.block)
  }

  lemma SwapKeepsPermutation(s: seq<nat>, i: nat, j: nat)
    requires i < |s| && j < |s| && Permutation(s)
    ensures Permutation(Swapped(s, i, j))
  {
    var r := Swapped(s, i, j);
    forall v: nat | v < |s| ensures v in r {
      assert v in s;
      var k :| 0 <= k < |s| && s[k] == v;
      assert r[if k == i then j else if k == j then i else k] == v;
    }
  }

  lemma StepKeeps(g: State, key: nat)
    requires Inv(g)
    ensures Inv(Step(g, key)) && Step(g, key).nh == g.nh && Step(g, key).nv == g.nv
  {
    if key == KEY_SPACE && g.selected {
      CellInside(g.x, g.y, g.nh, g.nv);
      CellInside(g.selX, g.selY, g.nh, g.nv);
      SwapKeepsPermutation(g.block, Cell(g.x, g.y, g.nh), Cell(g.selX, g.selY, g.nh));
    }
  }

  function Run(g: State, keys: seq<nat>): (r: State)
    requires Inv(g)
    ensures Inv(r) && r.nh == g.nh && r.nv == g.nv
    decreases |keys|
  {
    if keys == [] then g
    else
      StepKeeps(g, keys[0]);
      Run(Step(g, keys[0]), keys[1..])
  }

  lemma {:induction false} RunAppend(g: State, k1: seq<nat>, k2: seq<nat>)
    requires Inv(g)
    ensures Run(g, k1 + k2) == Run(Run(g, k1), k2)
    ensures Swaps(g, k1 + k2) == Swaps(g, k1) + Swaps(Run(g, k1), k2)
    decreases |k1|
  {
    if k1 == [] {
      assert k1 + k2 == k2;
    } else {
      assert (k1 + k2)[1..] == k1[1..] + k2;
      StepKeeps(g, k1[0]);
      RunAppend(Step(g, k1[0]), k1[1..], k2);
    }
  }

  /** How many swaps a run makes: SPACE with a selection pending. */
  function Swaps(g: State, keys: seq<nat>): nat
    requires Inv(g)
    decreases |keys|
  {
    if keys == [] then 0
    else
      StepKeeps(g, keys[0]);
      (if keys[0] == KEY_SPACE && g.selected then 1 else 0) + Swaps(Step(g, keys[0]), keys[1..])
  }

  // ----- the win test -----

  predicate Restored(block: seq<nat>) {
    forall i :: 0 <= i < |block| ==> block[i] == i
  }

  lemma {:induction false} SortedAtLeast(block: seq<nat>, i: nat)
    requires Permutation(block) && Sorted(block) && i < |block|
    ensures block[i] >= i
  {
    if i > 0 {
      SortedAtLeast(block, i - 1);
      assert block[i - 1] <= block[i - 1 + 1];
    }
  }

  lemma {:induction false} SortedAtMost(block: seq<nat>, i: nat)
    requires Permutation(block) && Sorted(block) && i < |block|
    ensures block[i] <= i
    decreases |block| - i
  {
    if i + 1 < |block| {
      SortedAtMost(block, i + 1);
    }
  }

  /** The test for neighbours in order succeeds exactly on the restored picture. */
  lemma SortedIffRestored(block: seq<nat>)
    requires Permutation(block)
    ensures Sorted(block) <==> Restored(block)
  {
    if Sorted(block) {
      forall i | 0 <= i < |block| ensures block[i] == i {
        SortedAtLeast(block, i);
        SortedAtMost(block, i);
      }
    }
  }

  // ----- the main loop -----

  /** The loop left after `used` keys, or is still waiting for a key. */
  datatype Outcome = Won(final: State, used: nat) | Waiting(state: State)

  function Later(o: Outcome, n: nat): Outcome {
    match o
    case Won(f, k) => Won(f, k + n)
    case Waiting(_) => o
  }

  function Play(g: State, keys: seq<nat>): (r: Outcome)
    requires Inv(g)
    ensures r.Won? ==> r.used <= |keys|
    decreases |keys|
  {
    if Sorted(g.block) then Won(g, 0)
    else if keys == [] then Waiting(g)
    else
      StepKeeps(g, keys[0]);
      Later(Play(Step(g, keys[0]), keys[1..]), 1)
  }

  /** A run of the first `k` keys, taken from after the first one. */
  lemma RunBehind(g: State, keys: seq<nat>, k: nat)
    requires Inv(g) && 1 <= k <= |keys| && Inv(Step(g, keys[0]))
    ensures Run(g, keys[..k]) == Run(Step(g, keys[0]), keys[1..][..k - 1])
    ensures Swaps(g, keys[..k]) == Swaps(g, keys[..1]) + Swaps(Step(g, keys[0]), keys[1..][..k - 1])
  {
    assert keys[..k][1..] == keys[1..][..k - 1];
    assert keys[..1][1..] == [];
  }

  /** The loop leaves exactly when some prefix of the keys restores the picture,
      at the first such prefix, and then the picture is restored. */
  lemma {:induction false} PlayIs(g: State, keys: seq<nat>)
    requires Inv(g)
    ensures match Play(g, keys)
      case Won(f, n) =>
        && n <= |keys| && f == Run(g, keys[..n]) && Restored(f.block)
        && Swaps(g, keys[..n]) <= Swaps(g, keys)
        && forall k :: 0 <= k < n ==> !Restored(Run(g, keys[..k]).block)
      case Waiting(s) => s == Run(g, keys) && forall k :: 0 <= k <= |keys| ==> !Restored(Run(g, keys[..k]).block)
    decreases |keys|
  {
    SortedIffRestored(g.block);
    if !Sorted(g.block) && keys != [] {
      StepKeeps(g, keys[0]);
      var g1 := Step(g, keys[0]);
      PlayIs(g1, keys[1..]);
      forall k | 1 <= k <= |keys|
        ensures Run(g, keys[..k]) == Run(g1, keys[1..][..k - 1])
        ensures Swaps(g, keys[..k]) == Swaps(g, keys[..1]) + Swaps(g1, keys[1..][..k - 1])
      {
        RunBehind(g, keys, k);
      }
      assert keys[1..][..|keys| - 1] == keys[1..] && keys[..|keys|] == keys;
      assert keys[..0] == [];
    }
  }
}
