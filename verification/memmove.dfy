/** memmove and memset of lib/string.c, on one flat memory: pointers are indices. */
module MemMove {
  import opened Bytes

  /** What C promises of memmove (section 7.21.2.2 of C99): the destination gets
      the bytes the source had, nothing else changes. */
  function Moved(m: seq<byte>, dst: nat, src: nat, n: nat): (r: seq<byte>)
    requires dst + n <= |m| && src + n <= |m|
    ensures |r| == |m|
    ensures forall j :: 0 <= j < |m| ==> r[j] == if dst <= j < dst + n then m[src + (j - dst)] else m[j]
  {
    seq(|m|, j requires 0 <= j < |m| => if dst <= j < dst + n then m[src + (j - dst)] else m[j])
  }

  /** Front to back, piece by piece: right unless the destination starts inside the source. */
  lemma JoinUp(m: seq<byte>, d: nat, s: nat, k: nat, w: nat)
    requires d + k + w <= |m| && s + k + w <= |m| && !(s < d < s + k + w)
    ensures Moved(Moved(m, d, s, k), d + k, s + k, w) == Moved(m, d, s, k + w)
  {
  }

  /** Back to front: right when the destination starts after the source. */
  lemma JoinDown(m: seq<byte>, d: nat, s: nat, k: nat, w: nat)
    requires d + k + w <= |m| && s + k + w <= |m| && s < d
    ensures Moved(Moved(m, d + w, s + w, k), d, s, w) == Moved(m, d, s, w + k)
  {
  }

  // ----- the string instructions -----

  /** One step of `movsl`: the four bytes are read before any is written. */
  method MoveWord(mem: array<byte>, d: nat, s: nat)
    requires d + 4 <= mem.Length && s + 4 <= mem.Length
    modifies mem
    ensures mem[..] == Moved(old(mem[..]), d, s, 4)
  {
    var b0, b1, b2, b3 := mem[s], mem[s + 1], mem[s + 2], mem[s + 3];
    mem[d], mem[d + 1], mem[d + 2], mem[d + 3] := b0, b1, b2, b3;
  }

  /** One step of `movsb`. */
  method MoveByte(mem: array<byte>, d: nat, s: nat)
    requires d < mem.Length && s < mem.Length
    modifies mem
    ensures mem[..] == Moved(old(mem[..]), d, s, 1)
  {
    mem[d] := mem[s];
  }

  /** `cld; rep movsb` and the forward byte loop of the portable version. */
  method BytesUp(mem: array<byte>, d: nat, s: nat, n: nat)
    requires d + n <= mem.Length && s + n <= mem.Length && !(s < d < s + n)
    modifies mem
    ensures mem[..] == Moved(old(mem[..]), d, s, n)
  {
    ghost var m := mem[..];
    var done: nat := 0;
    while done < n
      invariant done <= n && mem[..] == Moved(m, d, s, done)
    {
      MoveByte(mem, d + done, s + done);
      JoinUp(m, d, s, done, 1);
      done := done + 1;
    }
  }

  /** `std; rep movsb` and the backward byte loop of the portable version. */
  method BytesDown(mem: array<byte>, d: nat, s: nat, n: nat)
    requires d + n <= mem.Length && s + n <= mem.Length && s < d
    modifies mem
    ensures mem[..] == Moved(old(mem[..]), d, s, n)
  {
    ghost var m := mem[..];
    var left, done: nat := n, 0;
    while left > 0
      invariant 0 <= left == n - done && mem[..] == Moved(m, d + left, s + left, done)
    {
      left := left - 1;
      MoveByte(mem, d + left, s + left);
      JoinDown(m, d + left, s + left, done, 1);
      done := done + 1;
    }
  }

  /** `cld; rep movsl` */
  method WordsUp(mem: array<byte>, d: nat, s: nat, words: nat)
    requires d + 4 * words <= mem.Length && s + 4 * words <= mem.Length && !(s < d < s + 4 * words)
    modifies mem
    ensures mem[..] == Moved(old(mem[..]), d, s, 4 * words)
  {
    ghost var m := mem[..];
    var done: nat := 0;
    while done < 4 * words
      invariant done <= 4 * words && done % 4 == 0 && mem[..] == Moved(m, d, s, done)
    {
      MoveWord(mem, d + done, s + done);
      JoinUp(m, d, s, done, 4);
      done := done + 4;
    }
  }

  /** `std; rep movsl` */
  method WordsDown(mem: array<byte>, d: nat, s: nat, words: nat)
    requires d + 4 * words <= mem.Length && s + 4 * words <= mem.Length && s < d
    modifies mem
    ensures mem[..] == Moved(old(mem[..]), d, s, 4 * words)
  {
    ghost var m := mem[..];
    var left, done: nat := 4 * words, 0;
    while left > 0
      invariant 0 <= left == 4 * words - done && left % 4 == 0 && mem[..] == Moved(m, d + left, s + left, done)
    {
      left := left - 4;
      MoveWord(mem, d + left, s + left);
      JoinDown(m, d + left, s + left, done, 4);
      done := done + 4;
    }
  }

  // ----- the two versions of the routine -----

  /** memmove with string instructions. */
  method MemmoveAsm(mem: array<byte>, dst: nat, src: nat, n: nat)
    requires dst + n <= mem.Length && src + n <= mem.Length
    modifies mem
    ensures mem[..] == Moved(old(mem[..]), dst, src, n)
    ensures forall j :: 0 <= j < mem.Length ==>
      mem[j] == if dst <= j < dst + n then old(mem[src + (j - dst)]) else old(mem[j])
  {
    if src < dst && src + n > dst {
      var s, d := src + n, dst + n;
      if s % 4 == 0 && d % 4 == 0 && n % 4 == 0 {
        WordsDown(mem, d - n, s - n, n / 4);
      } else {
        BytesDown(mem, d - n, s - n, n);
      }
    } else {
      if src % 4 == 0 && dst % 4 == 0 && n % 4 == 0 {
        WordsUp(mem, dst, src, n / 4);
      } else {
        BytesUp(mem, dst, src, n);
      }
    }
  }

  /** memmove with byte loops: the same memory on every input. */
  method MemmovePortable(mem: array<byte>, dst: nat, src: nat, n: nat)
    requires dst + n <= mem.Length && src + n <= mem.Length
    modifies mem
    ensures mem[..] == Moved(old(mem[..]), dst, src, n)
    ensures forall j :: 0 <= j < mem.Length ==>
      mem[j] == if dst <= j < dst + n then old(mem[src + (j - dst)]) else old(mem[j])
  {
    if src < dst && src + n > dst {
      BytesDown(mem, dst, src, n);
    } else {
      BytesUp(mem, dst, src, n);
    }
  }

  /** What memset leaves: `n` copies of the low byte of `c`. */
  function Filled(m: seq<byte>, v: nat, c: byte, n: nat): seq<byte>
    requires v + n <= |m|
  {
    Splice(m, v, seq(n, _ => c))
  }

  /** `rep stosl`: the word repeats the byte. */
  method StoreWords(mem: array<byte>, v: nat, low: byte, words: nat)
    requires v + 4 * words <= mem.Length
    modifies mem
    ensures mem[..] == Filled(old(mem[..]), v, low, 4 * words)
  {
    var b := WordBytes(low as int * 0x100_0000 + low as int * 0x1_0000 + low as int * 0x100 + low as int);
    WordBytesUnique(b, [low, low, low, low]);
    for k := 0 to words
      invariant forall j :: 0 <= j < mem.Length ==> mem[j] == if v <= j < v + 4 * k then low else old(mem[j])
    {
      var at := v + 4 * k;
      mem[at], mem[at + 1], mem[at + 2], mem[at + 3] := b[0], b[1], b[2], b[3];
    }
  }

  lemma WordBytesUnique(s: seq<byte>, t: seq<byte>)
    requires |s| == |t| == 4 && Word(s, 0) == Word(t, 0)
    ensures s == t
  {
    var s2, t2 := s[2] as nat + 0x100 * s[3] as nat, t[2] as nat + 0x100 * t[3] as nat;
    PeelByte(s[0], s[1] as nat + 0x100 * s2, t[0], t[1] as nat + 0x100 * t2);
    PeelByte(s[1], s2, t[1], t2);
    PeelByte(s[2], s[3] as nat, t[2], t[3] as nat);
  }

  /** memset with string instructions. */
  method Memset(mem: array<byte>, v: nat, c: int, n: nat)
    requires v + n <= mem.Length
    modifies mem
    ensures mem[..] == Filled(old(mem[..]), v, c % 256, n)
    ensures forall j :: 0 <= j < mem.Length ==> mem[j] == if v <= j < v + n then c % 256 else old(mem[j])
  {
    if v % 4 == 0 && n % 4 == 0 {
      StoreWords(mem, v, c % 256, n / 4);
    } else {
      for k := 0 to n
        invariant forall j :: 0 <= j < mem.Length ==> mem[j] == if v <= j < v + k then c % 256 else old(mem[j])
      {
        mem[v + k] := c % 256;
      }
    }
  }

  // ----- why the copy direction matters -----

  /** The forward byte loop, whatever the overlap. */
  function ForwardCopied(m: seq<byte>, dst: nat, src: nat, n: nat): (r: seq<byte>)
    requires dst + n <= |m| && src + n <= |m|
    ensures |r| == |m|
  {
    if n == 0 then m
    else
      var r := ForwardCopied(m, dst, src, n - 1);
      r[dst + n - 1 := r[src + n - 1]]
  }

  predicate RepeatsAt(r: seq<byte>, gap: nat, j: nat)
    requires gap <= j < |r|
  {
    r[j] == r[j - gap]
  }

  /** From `lo` to `hi` each byte equals the one `gap` before it. */
  predicate RepeatsIn(r: seq<byte>, gap: nat, lo: nat, hi: nat)
    requires gap <= lo && hi <= |r|
  {
    forall j :: lo <= j < hi ==> RepeatsAt(r, gap, j)
  }

  /** To the right of its source it repeats what it has already written. */
  lemma {:induction false} ForwardRepeats(m: seq<byte>, dst: nat, src: nat, n: nat)
    requires src < dst && dst + n <= |m|
    ensures var r := ForwardCopied(m, dst, src, n);
            && (forall j :: 0 <= j < |m| && !(dst <= j < dst + n) ==> r[j] == m[j])
            && RepeatsIn(r, dst - src, dst, dst + n)
  {
    if n > 0 {
      ForwardRepeats(m, dst, src, n - 1);
      var r0, r := ForwardCopied(m, dst, src, n - 1), ForwardCopied(m, dst, src, n);
      var gap := dst - src;
      forall j | dst <= j < dst + n ensures RepeatsAt(r, gap, j) {
        assert j < dst + n - 1 ==> RepeatsAt(r0, gap, j);
      }
    }
  }

  /** So with an overlap to the right, the case the code sends backwards, it is
      memmove exactly when the source repeats with the distance as its period. */
  lemma ForwardIsMoveIff(m: seq<byte>, dst: nat, src: nat, n: nat)
    requires src < dst < src + n && dst + n <= |m|
    ensures ForwardCopied(m, dst, src, n) == Moved(m, dst, src, n)
            <==> RepeatsIn(m, dst - src, dst, src + n)
  {
    var r, w, gap := ForwardCopied(m, dst, src, n), Moved(m, dst, src, n), dst - src;
    ForwardRepeats(m, dst, src, n);
    if r == w {
      forall j | dst <= j < src + n ensures RepeatsAt(m, gap, j) {
        assert RepeatsAt(r, gap, j + gap);
        assert w[j + gap] == m[j] && w[j] == m[j - gap];
      }
    }
    if RepeatsIn(m, gap, dst, src + n) {
      PeriodCopies(m, dst, src, n, n);
    }
  }

  lemma {:induction false} PeriodCopies(m: seq<byte>, dst: nat, src: nat, n: nat, k: nat)
    requires src < dst < src + n && dst + n <= |m| && k <= n
    requires RepeatsIn(m, dst - src, dst, src + n)
    ensures forall j :: dst <= j < dst + k ==> ForwardCopied(m, dst, src, n)[j] == Moved(m, dst, src, n)[j]
  {
    if k > 0 {
      PeriodCopies(m, dst, src, n, k - 1);
      ForwardRepeats(m, dst, src, n);
      var j, gap := dst + k - 1, dst - src;
      assert RepeatsAt(ForwardCopied(m, dst, src, n), gap, j);
      assert j - gap >= dst ==> RepeatsAt(m, gap, j - gap);
    }
  }
}
