/** The formatter as it runs, over the truncating buffer of vsnprintf: lib/printfmt.c. */
module PrintFmtRun {
  import opened Wrappers
  import opened Bytes
  import opened PrintFmt

  /** What a buffer of `n` bytes holds at the end: as much of the text as fits, then NUL. */
  function Truncated(text: string, n: nat): (s: string)
    requires n >= 1
    ensures |s| <= n
  {
    text[..Min(n - 1, |text|)] + ['\0']
  }

  /** `struct sprintbuf`: `pos` and `ebuf` are offsets into the caller's array. */
  class SprintBuf {
    const data: array<char>
    var pos: nat
    const ebuf: nat
    var cnt: nat
    /** Everything put so far, and the array as it was at first. */
    ghost var text: string
    ghost const before: seq<char>

    ghost predicate Valid()
      reads this, data
    {
      && ebuf < data.Length == |before| && cnt == |text| && pos == Min(|text|, ebuf)
      && data[..] == Splice(before, 0, text[..pos])
    }

    constructor (buf: array<char>, n: nat)
      requires 1 <= n <= buf.Length
      ensures Valid() && data == buf && ebuf == n - 1 && text == "" && before == buf[..]
    {
      data, pos, ebuf, cnt := buf, 0, n - 1, 0;
      text, before := "", buf[..];
    }

    /** sprintputch */
    method Put(ch: char)
      requires Valid()
      modifies this, data
      ensures Valid() && text == old(text) + [ch]
    {
      cnt := cnt + 1;
      if pos < ebuf {
        data[pos] := ch;
        pos := pos + 1;
      }
      text := text + [ch];
    }

    method PutPad(ch: char, n: int)
      requires Valid()
      modifies this, data
      ensures Valid() && text == old(text) + Repeat(ch, n)
    {
      var width := n;
      while width > 0
        invariant Valid() && text == old(text) + Repeat(ch, n - Max(0, width))
      {
        Put(ch);
        width := width - 1;
      }
    }

    /** The end of vsnprintf. */
    method Terminate()
      requires Valid()
      modifies data
      ensures data[..] == Splice(before, 0, Truncated(text, ebuf + 1))
    {
      data[pos] := '\0';
    }

    /** printnum */
    method PrintNum(num: nat, base: nat, width: int, padc: char)
      requires Valid() && 2 <= base <= 16
      modifies this, data
      ensures Valid() && text == old(text) + Padded(num, base, width, padc)
      decreases num
    {
      PaddedStep(num, base, width, padc);
      if num >= base {
        PrintNum(num / base, base, width - 1, padc);
      } else {
        PutPad(padc, width - 1);
      }
      Put(DigitOf(num % base));
    }

    /** The middle loop of the %s case: what the precision lets through. */
    method PutShown(s: CString, precision0: int, alt: bool) returns (count: nat)
      requires Valid()
      modifies this, data
      ensures Valid() && text == old(text) + MaskedAll(Shown(s, precision0), alt) && count == |Shown(s, precision0)|
    {
      ghost var shown := MaskedAll(Shown(s, precision0), alt);
      var precision := precision0;
      count := 0;
      while At(s, count) != '\0' && (precision < 0 || precision > 0)
        invariant count <= |shown| && Valid() && text == old(text) + shown[..count]
        invariant precision == if precision0 < 0 then precision0 else precision0 - count
        decreases |s| - count
      {
        if precision > 0 {
          precision := precision - 1;
        }
        if alt && (s[count] < ' ' || s[count] > '~') {
          Put('?');
        } else {
          Put(s[count]);
        }
        count := count + 1;
      }
      assert shown[..count] == shown;
    }

    /** The %s case. */
    method PrintString(s: CString, fl: Flags)
      requires Valid() && -0x8000_0000 <= fl.precision
      modifies this, data
      ensures Valid() && text == old(text) + StringText(s, fl)
    {
      var width := fl.width;
      if width > 0 && fl.padc != '-' {
        var len := Strnlen(s, if fl.precision < 0 then fl.precision + TWO32 else fl.precision);
        width := width - len;
        PutPad(fl.padc, width);
        width := Min(width, 0);
      }
      var count := PutShown(s, fl.precision, fl.alt);
      PutPad(' ', width - count);
    }
  }

  /** strnlen */
  method Strnlen(s: CString, size0: nat) returns (n: nat)
    ensures n == Min(|s|, size0)
  {
    var size: nat := size0;
    n := 0;
    while size > 0 && At(s, n) != '\0'
      invariant n <= |s| && size + n == size0
    {
      n, size := n + 1, size - 1;
    }
    assert n < |s| ==> s[n] in s;
  }

  lemma PaddedStep(num: nat, base: nat, width: int, padc: char)
    requires 2 <= base <= 16
    ensures num % base < 16
    ensures Padded(num, base, width, padc)
         == (if num >= base then Padded(num / base, base, width - 1, padc) else Repeat(padc, width - 1))
            + [DigitOf(num % base)]
    ensures num >= base ==> num / base < num
  {
    SmallMod(num, base);
    if num >= base {
      PadAssociates(padc, width, Digits(num / base, base), DigitOf(num % base));
    }
  }

  lemma PadAssociates(padc: char, width: int, digits: string, c: char)
    ensures Repeat(padc, width - |digits + [c]|) + (digits + [c]) == Repeat(padc, width - 1 - |digits|) + digits + [c]
  {
  }

  /** The width loop: `ch` is the digit before `i0`. */
  method ScanWidth(fmt: CString, i0: nat) returns (n: nat, i: nat)
    requires i0 < |fmt| && IsDigit(fmt[i0])
    ensures (n, i) == ScanNumber(fmt, i0, 0)
  {
    var ch := fmt[i0];
    i := i0 + 1;
    n := 0;
    while true
      invariant i0 < i <= |fmt| && ch == fmt[i - 1] && IsDigit(ch)
      invariant ScanNumber(fmt, i0, 0) == ScanNumber(fmt, i - 1, n)
      decreases |fmt| - i
    {
      n := n * 10 + (ch - '0') as nat;
      ch := At(fmt, i);
      if !IsDigit(ch) {
        break;
      }
      i := i + 1;
    }
  }

  /** A conversion other than %e; false when C has no defined behaviour. */
  method Convert(b: SprintBuf, ch: char, fl: Flags, args: seq<Arg>, a0: nat) returns (ok: bool, a: nat)
    requires b.Valid() && -0x8000_0000 <= fl.precision && ch in "csduopx%"
    modifies b, b.data
    ensures b.Valid() && ok == Conversion(ch, fl, args, a0).Some?
    ensures ok ==> var (text, next) := Conversion(ch, fl, args, a0).value; b.text == old(b.text) + text && a == next
  {
    ok, a := true, a0 + 1;
    if ch == '%' || ch == 'o' {
      a := a0;
      PutFixed(b, ch);
    } else if ch == 's' {
      var p := TakeString(args, a0);
      ok := p.Some?;
      if ok {
        b.PrintString(p.value, fl);
      }
    } else if ch == 'd' {
      var v := TakeSigned(args, a0, fl.lflag);
      ok := v.Some? && v.value != -0x8000_0000_0000_0000;
      if ok {
        PutSigned(b, fl, v.value);
      }
    } else {
      var w := TakeUnsigned(args, a0, if ch == 'c' || ch == 'p' then 0 else fl.lflag);
      ok := w.Some?;
      if ok {
        PutUnsigned(b, ch, fl, w.value);
      }
    }
  }

  method PutSigned(b: SprintBuf, fl: Flags, v: int)
    requires b.Valid()
    modifies b, b.data
    ensures b.Valid()
    ensures b.text == old(b.text) + SignedText(v, fl.width, fl.padc)
  {
    var num := v;
    if num < 0 {
      b.Put('-');
      num := -num;
    }
    b.PrintNum(num, 10, fl.width, fl.padc);
  }

  method PutFixed(b: SprintBuf, ch: char)
    requires b.Valid() && ch in "%o"
    modifies b, b.data
    ensures b.Valid() && b.text == old(b.text) + if ch == '%' then "%" else "XXX"
  {
    if ch == '%' {
      b.Put(ch);
    } else {
      b.Put('X');
      b.Put('X');
      b.Put('X');
    }
  }

  method PutUnsigned(b: SprintBuf, ch: char, fl: Flags, w: nat)
    requires b.Valid() && ch in "cupx"
    modifies b, b.data
    ensures b.Valid()
    ensures b.text == old(b.text) + match ch
      case 'c' => [(w % 256) as char]
      case 'u' => Padded(w, 10, fl.width, fl.padc)
      case 'p' => "0x" + Padded(w, 16, fl.width, fl.padc)
      case _ => Padded(w, 16, fl.width, fl.padc)
  {
    if ch == 'c' {
      b.Put((w % 256) as char);
      return;
    }
    if ch == 'p' {
      b.Put('0');
      b.Put('x');
    }
    b.PrintNum(w, if ch == 'u' then 10 else 16, fl.width, fl.padc);
  }

  /** The flags of an escape: the part of the switch that goes back to `reswitch`. */
  method ScanFlags(fmt: CString, start: nat, args: seq<Arg>, a0: nat) returns (ok: bool, i: nat, a: nat, fl: Flags)
    requires 1 <= start <= |fmt| && fmt[start - 1] == '%'
    ensures start <= i <= |fmt| && -0x8000_0000 <= fl.precision && forall k :: start <= k < i ==> fmt[k] != '%'
    ensures !ok ==> Escape(fmt, start, start, args, a0, NO_FLAGS) == None
    ensures ok ==>
      && Escape(fmt, start, start, args, a0, NO_FLAGS) == Escape(fmt, start, i, args, a, fl)
      && At(fmt, i) !in "-0*.#l" && !IsDigit(At(fmt, i))
  {
    i, a, fl := start, a0, NO_FLAGS;
    while true
      invariant start <= i <= |fmt| && -0x8000_0000 <= fl.precision && forall k :: start <= k < i ==> fmt[k] != '%'
      invariant Escape(fmt, start, start, args, a0, NO_FLAGS) == Escape(fmt, start, i, args, a, fl)
      decreases |fmt| - i
    {
      var ch := At(fmt, i);
      if ch == '-' || ch == '0' {
        fl := fl.(padc := ch);
      } else if '1' <= ch <= '9' {
        var n, j := ScanWidth(fmt, i);
        fl := WithNumber(fl, n);
        i := j;
        continue;
      } else if ch == '*' {
        var n := TakeSigned(args, a, 0);
        if n.None? {
          return false, i, a, fl;
        }
        a := a + 1;
        fl := WithNumber(fl, n.value);
      } else if ch == '.' {
        if fl.width < 0 {
          fl := fl.(width := 0);
        }
      } else if ch == '#' {
        fl := fl.(alt := true);
      } else if ch == 'l' {
        fl := fl.(lflag := fl.lflag + 1);
      } else {
        return true, i, a, fl;
      }
      i := i + 1;
    }
  }

  /** %e with a non-negative code: the formatter calls itself. */
  method PutError(b: SprintBuf, err: nat) returns (ok: bool)
    requires b.Valid()
    modifies b, b.data
    ensures b.Valid()
    ensures match ErrorText(err)
            case None => !ok
            case Some(text) => ok && b.text == old(b.text) + text
    decreases false, 3
  {
    ErrorFormatsDoNotNest();
    var p := if err >= MAXERROR then None else ErrorString(err);
    if p.None? {
      ok := VPrintFmt(b, "error %d", [Word32(err)]);
    } else {
      ok := VPrintFmt(b, "%s", [Str(p.value)]);
    }
  }

  /** The %e case: `i0` is where its 'e' is. */
  method RunError(b: SprintBuf, fmt: CString, start: nat, i0: nat, args: seq<Arg>, a0: nat, ghost fl: Flags)
    returns (ok: bool, i: nat, a: nat)
    requires b.Valid() && 1 <= start <= i0 < |fmt| && fmt[start - 1] == '%' && fmt[i0] == 'e'
    requires -0x8000_0000 <= fl.precision && forall k :: start <= k < i0 ==> fmt[k] != '%'
    modifies b, b.data
    ensures b.Valid() && start <= i <= |fmt|
    ensures !ok ==> Escape(fmt, start, i0, args, a0, fl) == None
    ensures ok ==> Glue(old(b.text), Escape(fmt, start, i0, args, a0, fl)) == Glue(b.text, Literal(fmt, i, args, a))
    decreases true, 0
  {
    assert MayNest(fmt);
    i, a := i0 + 1, a0 + 1;
    var v := TakeSigned(args, a0, 0);
    if v.None? || v.value == -0x8000_0000 {
      return false, i, a;
    }
    ghost var text := b.text;
    var err: nat := if v.value < 0 then -v.value else v.value;
    ok := PutError(b, err);
    if ok {
      GlueTwice(text, ErrorText(err).value, Literal(fmt, i, args, a));
    }
  }

  /** The cases of the other known conversions. */
  method RunKnown(b: SprintBuf, fmt: CString, start: nat, i0: nat, args: seq<Arg>, a0: nat, fl: Flags)
    returns (ok: bool, i: nat, a: nat)
    requires b.Valid() && 1 <= start <= i0 < |fmt| && fmt[start - 1] == '%' && fmt[i0] in "csduopx%"
    requires -0x8000_0000 <= fl.precision && forall k :: start <= k < i0 ==> fmt[k] != '%'
    modifies b, b.data
    ensures b.Valid() && start <= i <= |fmt|
    ensures !ok ==> Escape(fmt, start, i0, args, a0, fl) == None
    ensures ok ==> Glue(old(b.text), Escape(fmt, start, i0, args, a0, fl)) == Glue(b.text, Literal(fmt, i, args, a))
  {
    ghost var text, conv := b.text, Conversion(fmt[i0], fl, args, a0);
    ok, a := Convert(b, fmt[i0], fl, args, a0);
    i := i0 + 1;
    if ok {
      GlueTwice(text, conv.value.0, Literal(fmt, i, args, a));
    }
  }

  /** The default case: back to just after the '%'. */
  method RunUnknown(b: SprintBuf, fmt: CString, start: nat, i0: nat,
                    ghost args: seq<Arg>, ghost a: nat, ghost fl: Flags)
    returns (i: nat)
    requires b.Valid() && 1 <= start <= i0 <= |fmt| && fmt[start - 1] == '%'
    requires -0x8000_0000 <= fl.precision && forall k :: start <= k < i0 ==> fmt[k] != '%'
    requires At(fmt, i0) !in "-0*.#lecsduopx%" && !IsDigit(At(fmt, i0))
    modifies b, b.data
    ensures b.Valid() && i == start
    ensures Glue(old(b.text), Escape(fmt, start, i0, args, a, fl)) == Glue(b.text, Literal(fmt, i, args, a))
  {
    GlueTwice(b.text, "%", Literal(fmt, start, args, a));
    b.Put('%');
    i := i0;
    while fmt[i - 1] != '%'
      invariant start <= i <= i0
      decreases i
    {
      i := i - 1;
    }
  }

  /** The rest of an escape. */
  method RunEscape(b: SprintBuf, fmt: CString, start: nat, args: seq<Arg>, a0: nat) returns (ok: bool, i: nat, a: nat)
    requires b.Valid() && 1 <= start <= |fmt| && fmt[start - 1] == '%'
    modifies b, b.data
    ensures b.Valid() && start <= i <= |fmt|
    ensures !ok ==> Escape(fmt, start, start, args, a0, NO_FLAGS) == None
    ensures ok ==>
      Glue(old(b.text), Escape(fmt, start, start, args, a0, NO_FLAGS)) == Glue(b.text, Literal(fmt, i, args, a))
    decreases MayNest(fmt), 1
  {
    var fl;
    ok, i, a, fl := ScanFlags(fmt, start, args, a0);
    if !ok {
      return;
    }
    var ch := At(fmt, i);
    if ch == 'e' {
      assert MayNest(fmt);
      ok, i, a := RunError(b, fmt, start, i, args, a, fl);
    } else if ch in "csduopx%" {
      ok, i, a := RunKnown(b, fmt, start, i, args, a, fl);
    } else {
      i := RunUnknown(b, fmt, start, i, args, a, fl);
    }
  }

  /** vprintfmt; false when C has no defined behaviour. */
  method VPrintFmt(b: SprintBuf, fmt: CString, args: seq<Arg>) returns (ok: bool)
    requires b.Valid()
    modifies b, b.data
    ensures b.Valid()
    ensures match Format(fmt, args)
            case None => !ok
            case Some(text) => ok && b.text == old(b.text) + text
    decreases MayNest(fmt), 2
  {
    var i, a := 0, 0;
    while true
      invariant i <= |fmt| && b.Valid()
      invariant Glue(b.text, Literal(fmt, i, args, a)) == Glue(old(b.text), Format(fmt, args))
      decreases |fmt| - NextPercent(fmt, i)
    {
      ghost var next := NextPercent(fmt, i);
      while At(fmt, i) != '%'
        invariant i <= |fmt| && b.Valid() && NextPercent(fmt, i) == next
        invariant Glue(b.text, Literal(fmt, i, args, a)) == Glue(old(b.text), Format(fmt, args))
        decreases |fmt| - i
      {
        if At(fmt, i) == '\0' {
          return true;
        }
        GlueTwice(b.text, [fmt[i]], Literal(fmt, i + 1, args, a));
        b.Put(fmt[i]);
        i := i + 1;
      }
      ok, i, a := RunEscape(b, fmt, i + 1, args, a);
      if !ok {
        return;
      }
    }
  }

  /** vsnprintf: the count returned does not depend on `n`, and nothing outside
      the first `n` bytes changes. */
  method VSNPrintF(buf: array?<char>, n: int, fmt: CString, args: seq<Arg>) returns (ok: bool, rc: int)
    requires buf != null ==> n <= buf.Length
    modifies buf
    ensures buf == null || n < 1 ==> ok && rc == -3 && (buf != null ==> buf[..] == old(buf[..]))
    ensures buf != null && n >= 1 ==>
      match Format(fmt, args)
      case None => !ok
      case Some(text) =>
        && ok && rc == |text| && buf[..] == Splice(old(buf[..]), 0, Truncated(text, n))
        && forall k :: 0 <= k < buf.Length ==>
             buf[k] == if k < n - 1 && k < |text| then text[k] else if k < n && k <= |text| then '\0' else old(buf[k])
  {
    if buf == null || n < 1 {
      return true, -E_INVAL;
    }
    var b := new SprintBuf(buf, n);
    ok := VPrintFmt(b, fmt, args);
    assert ok ==> b.text == Format(fmt, args).value;
    b.Terminate();
    rc := b.cnt;
  }
}