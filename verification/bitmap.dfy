/** The block bitmap of the disk image: lib/fs.c. */
module Bitmap {

  const BITMAP_BYTES: nat := 512 * 256
  const NO_BLOCK: nat := 0xffff_ffff
  const SENTINEL: nat := 0xcccc_cccc

  // ----- one byte -----

  /** The bit a block number selects inside its byte: `offset & 0x7`. */
  function Low3(offset: nat): (s: bv8)
    ensures s < 8 && s as nat == offset % 8
  {
    match offset % 8
    case 0 => 0
    case 1 => 1
    case 2 => 2
    case 3 => 3
    case 4 => 4
    case 5 => 5
    case 6 => 6
    case _ => 7
  }

  /** Bit `s` of a byte, counted from the least significant one. */
  predicate Bit(b: bv8, s: bv8)
    requires s < 8
  {
    (b >> s) & 1 == 1
  }

  /** The byte `fs_set_bit` stores. */
  function WithBit(b: bv8, s: bv8, val: bool): (r: bv8)
    requires s < 8
  {
    (b & !((1 as bv8) << s)) | ((if val then 1 else 0) << s)
  }

  lemma WithBitAt(b: bv8, s: bv8, val: bool, t: bv8)
    requires s < 8 && t < 8
    ensures Bit(WithBit(b, s, val), t) == if t == s then val else Bit(b, t)
  {
  }

  /** The index of the only bit of `m`, -1 once that bit is shifted out. */
  function OneHotIndex(m: bv8): int {
    match m
    case 1 => 0
    case 2 => 1
    case 4 => 2
    case 8 => 3
    case 16 => 4
    case 32 => 5
    case 64 => 6
    case 128 => 7
    case _ => -1
  }

  /** `mask & -mask` isolates the lowest clear bit of a byte that is not all ones. */
  lemma LowestClear(b: bv8)
    requires b != 0xff
    ensures var p := OneHotIndex(!b & (0 - !b));
            0 <= p < 8 && !Bit(b, Low3(p)) && forall j: nat :: j < p ==> Bit(b, Low3(j))
  {
  }

  // ----- the bitmap as a sequence of flags -----

  function Flags(data: seq<bv8>): (r: seq<bool>)
    ensures |r| == 8 * |data|
    ensures forall k :: 0 <= k < |r| ==> r[k] == Bit(data[k / 8], Low3(k))
  {
    seq(8 * |data|, k requires 0 <= k < 8 * |data| => Bit(data[k / 8], Low3(k)))
  }

  lemma SameFlag(k: nat, offset: nat)
    ensures k == offset <==> k / 8 == offset / 8 && Low3(k) == Low3(offset)
  {
    assert Low3(k) as nat == k % 8 && Low3(offset) as nat == offset % 8;
  }

  lemma FlagUpdate(data: seq<bv8>, offset: nat, val: bool, k: nat)
    requires offset < 8 * |data| && k < 8 * |data|
    ensures Bit(data[offset / 8 := WithBit(data[offset / 8], Low3(offset), val)][k / 8], Low3(k))
         == if k == offset then val else Bit(data[k / 8], Low3(k))
  {
    SameFlag(k, offset);
    WithBitAt(data[offset / 8], Low3(offset), val, Low3(k));
  }

  lemma FlagsUpdate(data: seq<bv8>, offset: nat, val: bool)
    requires offset < 8 * |data|
    ensures Flags(data[offset / 8 := WithBit(data[offset / 8], Low3(offset), val)])
         == Flags(data)[offset := val]
  {
    var data' := data[offset / 8 := WithBit(data[offset / 8], Low3(offset), val)];
    forall k | 0 <= k < 8 * |data| ensures Flags(data')[k] == Flags(data)[offset := val][k] {
      FlagUpdate(data, offset, val, k);
    }
  }

  /** The first clear flag at or after `from`; the length when there is none. */
  function FirstClear(bits: seq<bool>, from: nat := 0): (r: nat)
    requires from <= |bits|
    ensures from <= r <= |bits|
    ensures forall k :: from <= k < r ==> bits[k]
    ensures r < |bits| ==> !bits[r]
    decreases |bits| - from
  {
    if from < |bits| && bits[from] then FirstClear(bits, from + 1) else from
  }

  lemma FirstClearIs(bits: seq<bool>, r: nat)
    requires r < |bits| && !bits[r] && forall k :: 0 <= k < r ==> bits[k]
    ensures FirstClear(bits) == r
  {
  }

  /** One allocation: the flags afterwards and the block handed out. */
  function AllocStep(bits: seq<bool>): (seq<bool>, nat) {
    var k := FirstClear(bits);
    if k < |bits| then (bits[k := true], k) else (bits, NO_BLOCK)
  }

  /** `n` allocations in a row: the flags afterwards and the blocks handed out. */
  function AllocRun(bits: seq<bool>, n: nat): (seq<bool>, seq<nat>) {
    if n == 0 then (bits, [])
    else
      var (bits', got) := AllocRun(bits, n - 1);
      var (bits'', b) := AllocStep(bits');
      (bits'', got + [b])
  }

  function ClearCount(bits: seq<bool>): nat {
    if bits == [] then 0 else ClearCount(bits[..|bits| - 1]) + if bits[|bits| - 1] then 0 else 1
  }

  lemma {:induction false} ClearCountSet(bits: seq<bool>, k: nat)
    requires k < |bits| && !bits[k]
    ensures ClearCount(bits[k := true]) == ClearCount(bits) - 1
  {
    var n := |bits| - 1;
    if k == n {
      assert bits[k := true][..n] == bits[..n];
    } else {
      assert bits[k := true][..n] == bits[..n][k := true];
      ClearCountSet(bits[..n], k);
    }
  }

  lemma {:induction false} ClearCountZero(bits: seq<bool>)
    ensures ClearCount(bits) == 0 <==> forall k :: 0 <= k < |bits| ==> bits[k]
  {
    if bits != [] {
      var n := |bits| - 1;
      ClearCountZero(bits[..n]);
      assert forall k :: 0 <= k < n ==> bits[k] == bits[..n][k];
    }
  }

  /** `got` lists the smallest clear blocks of `bits`, and `after` marks exactly those. */
  predicate TakesSmallest(bits: seq<bool>, after: seq<bool>, got: seq<nat>) {
    && |after| == |bits|
    && (forall i :: 0 <= i < |got| ==> got[i] < |bits| && !bits[got[i]])
    && (forall i, j :: 0 <= i < j < |got| ==> got[i] < got[j])
    && (forall k :: 0 <= k < |bits| ==> (after[k] <==> bits[k] || k in got))
    && (forall k, i :: 0 <= i < |got| && 0 <= k < got[i] ==> after[k])
  }

  lemma TakesOneMore(bits: seq<bool>, mid: seq<bool>, got: seq<nat>)
    requires TakesSmallest(bits, mid, got) && FirstClear(mid) < |mid|
    ensures var k := FirstClear(mid); TakesSmallest(bits, mid[k := true], got + [k])
  {
  }

  /** `n` successive allocations hand out the `n` smallest clear blocks, in
      increasing order, mark exactly those, and none is the inode sentinel. */
  lemma {:induction false} AllocRunSmallest(bits: seq<bool>, n: nat)
    requires n <= ClearCount(bits) && |bits| <= 8 * BITMAP_BYTES
    ensures var (after, got) := AllocRun(bits, n);
            && |got| == n && ClearCount(after) == ClearCount(bits) - n
            && TakesSmallest(bits, after, got) && SENTINEL !in got
  {
    if n > 0 {
      AllocRunSmallest(bits, n - 1);
      var (mid, got) := AllocRun(bits, n - 1);
      ClearCountZero(mid);
      ClearCountSet(mid, FirstClear(mid));
      TakesOneMore(bits, mid, got);
    }
  }

  /** An allocation fails exactly when no flag is clear, and then changes nothing. */
  lemma AllocFailsIffFull(bits: seq<bool>)
    requires |bits| <= 8 * BITMAP_BYTES
    ensures AllocStep(bits).1 == NO_BLOCK <==> ClearCount(bits) == 0
    ensures ClearCount(bits) == 0 ==> AllocStep(bits).0 == bits
  {
  }

  /** The first of `n + 1` allocations, and the rest. */
  lemma {:induction false} AllocRunFront(bits: seq<bool>, n: nat)
    ensures var (bits', b) := AllocStep(bits);
            AllocRun(bits, n + 1) == (AllocRun(bits', n).0, [b] + AllocRun(bits', n).1)
  {
    var (bits', b) := AllocStep(bits);
    if n == 0 {
      assert AllocRun(bits, 0) == (bits, []) && [] + [b] == [b] + [];
    } else {
      AllocRunFront(bits, n - 1);
      var (mid, got) := AllocRun(bits', n - 1);
      assert [b] + got + [AllocStep(mid).1] == [b] + (got + [AllocStep(mid).1]);
    }
  }

  /** More allocations than there are clear blocks: the last ones all fail. */
  lemma {:induction false} AllocRunOver(bits: seq<bool>, n: nat)
    requires ClearCount(bits) <= n && |bits| <= 8 * BITMAP_BYTES
    ensures var c, (after, got) := ClearCount(bits), AllocRun(bits, n);
            && |got| == n && |after| == |bits| && ClearCount(after) == 0
            && got[..c] == AllocRun(bits, c).1 && forall j :: c <= j < n ==> got[j] == NO_BLOCK
  {
    AllocRunSmallest(bits, ClearCount(bits));
    if n > ClearCount(bits) {
      AllocRunOver(bits, n - 1);
      AllocFailsIffFull(AllocRun(bits, n - 1).0);
    }
  }

  lemma FlagOfByte(data: seq<bv8>, i: nat, j: nat)
    requires i < |data| && j < 8
    ensures Flags(data)[8 * i + j] == Bit(data[i], Low3(j))
  {
    assert (8 * i + j) / 8 == i && Low3(8 * i + j) == Low3(j);
  }

  lemma FirstClearAt(data: seq<bv8>, i: nat, p: nat)
    requires i < |data| && p < 8 && !Bit(data[i], Low3(p)) && forall j: nat :: j < p ==> Bit(data[i], Low3(j))
    requires forall k :: 0 <= k < 8 * i ==> Flags(data)[k]
    ensures FirstClear(Flags(data)) == 8 * i + p < |Flags(data)|
  {
    FlagOfByte(data, i, p);
    forall k | 8 * i <= k < 8 * i + p ensures Flags(data)[k] {
      FlagOfByte(data, i, k - 8 * i);
    }
    FirstClearIs(Flags(data), 8 * i + p);
  }

  lemma FirstClearInByte(data: seq<bv8>, i: nat)
    requires i < |data| && data[i] != 0xff && forall k :: 0 <= k < 8 * i ==> Flags(data)[k]
    ensures FirstClear(Flags(data)) == 8 * i + OneHotIndex(!data[i] & (0 - !data[i])) < |Flags(data)|
  {
    LowestClear(data[i]);
    FirstClearAt(data, i, OneHotIndex(!data[i] & (0 - !data[i])));
  }

  lemma FullByteFlags(data: seq<bv8>, i: nat)
    requires i < |data| && data[i] == 0xff
    ensures forall k :: 8 * i <= k < 8 * i + 8 ==> Flags(data)[k]
  {
  }

  // ----- the bitmap in memory -----

  class BlockBitmap {
    var data: array<bv8>

    ghost predicate Valid()
      reads this
    {
      data.Length == BITMAP_BYTES
    }

    ghost function Bits(): (r: seq<bool>)
      reads this, data
      requires Valid()
      ensures |r| == 8 * BITMAP_BYTES
    {
      Flags(data[..])
    }

    constructor ()
      ensures Valid() && fresh(data)
      ensures forall k :: 0 <= k < 8 * BITMAP_BYTES ==> !Bits()[k]
    {
      data := new bv8[BITMAP_BYTES](_ => 0);
      new;
      forall k | 0 <= k < 8 * BITMAP_BYTES ensures !Bits()[k] {
        assert data[..][k / 8] == 0;
      }
    }

    method GetBit(offset: nat) returns (bit: bv8)
      requires Valid() && offset < 8 * BITMAP_BYTES
      ensures bit == if Bits()[offset] then 1 else 0
    {
      bit := (data[offset / 8] >> Low3(offset)) & 1;
    }

    method SetBit(offset: nat, val: nat)
      requires Valid() && offset < 8 * BITMAP_BYTES
      modifies data
      ensures Bits() == old(Bits())[offset := val % 2 == 1]
    {
      FlagsUpdate(data[..], offset, val % 2 == 1);
      data[offset / 8] := WithBit(data[offset / 8], Low3(offset), val % 2 == 1);
    }

    method AllocBlk() returns (blk: nat)
      requires Valid()
      modifies data
      ensures (Bits(), blk) == AllocStep(old(Bits()))
    {
      ghost var bytes := data[..];
      var i := 0;
      while i < data.Length
        invariant 0 <= i <= data.Length && data[..] == bytes
        invariant forall k :: 0 <= k < 8 * i ==> Flags(bytes)[k]
      {
        var mask: bv8 := !data[i];
        if mask != 0 {
          FirstClearInByte(bytes, i);
          mask := mask & (0 - mask);
          ghost var p := OneHotIndex(mask);
          var idx := -1;
          while mask != 0
            invariant mask == 0 || OneHotIndex(mask) >= 0
            invariant idx + 1 + OneHotIndex(mask) == p
            decreases OneHotIndex(mask)
          {
            idx := idx + 1;
            mask := mask >> 1;
          }
          idx := 8 * i + idx;  // the low three bits of 8 * i are clear, so | is +
          SetBit(idx, 1);
          return idx;
        }
        FullByteFlags(bytes, i);
        i := i + 1;
      }
      return NO_BLOCK;
    }
  }
}
