/** Laws of the formatter: escapes it does not know, widths, error texts, and
    text that strtol reads back. */
module FormatLaws {
  import opened Wrappers
  import opened Bytes
  import opened PrintFmt
  import opened StrTol

  // ----- unknown escapes -----

  /** Up to the next '%' or the end, text is copied. */
  lemma {:induction false} LiteralRun(fmt: CString, i: nat, args: seq<Arg>, a: nat)
    requires i <= |fmt|
    ensures Literal(fmt, i, args, a) == Glue(fmt[i..NextPercent(fmt, i)], Literal(fmt, NextPercent(fmt, i), args, a))
    decreases |fmt| - i
  {
    var np := NextPercent(fmt, i);
    if i < np {
      LiteralRun(fmt, i + 1, args, a);
      GlueTwice([fmt[i]], fmt[i + 1..np], Literal(fmt, np, args, a));
      assert [fmt[i]] + fmt[i + 1..np] == fmt[i..np];
    } else {
      assert fmt[i..np] == "";
      GlueNothing(Literal(fmt, np, args, a));
    }
  }

  /** Where the flags starting at `i` end, with the arguments they used; `None`
      when a `*` has no argument. */
  function FlagsEnd(fmt: CString, i: nat, args: seq<Arg>, a: nat, fl: Flags): (r: Option<(nat, nat, Flags)>)
    requires i <= |fmt| && -0x8000_0000 <= fl.precision
    ensures r.Some? ==> i <= r.value.0 <= |fmt| && -0x8000_0000 <= r.value.2.precision
    ensures r.Some? ==> forall k :: i <= k < r.value.0 ==> fmt[k] != '%'
    ensures r.Some? ==> At(fmt, r.value.0) !in "-0*.#l" && !IsDigit(At(fmt, r.value.0))
    decreases |fmt| - i
  {
    var ch := At(fmt, i);
    if ch == '-' || ch == '0' then FlagsEnd(fmt, i + 1, args, a, fl.(padc := ch))
    else if '1' <= ch <= '9' then
      var (n, j) := ScanNumber(fmt, i, 0);
      FlagsEnd(fmt, j, args, a, WithNumber(fl, n))
    else if ch == '*' then
      match TakeSigned(args, a, 0)
      case None => None
      case Some(n) => FlagsEnd(fmt, i + 1, args, a + 1, WithNumber(fl, n))
    else if ch == '.' then FlagsEnd(fmt, i + 1, args, a, fl.(width := Max(0, fl.width)))
    else if ch == '#' then FlagsEnd(fmt, i + 1, args, a, fl.(alt := true))
    else if ch == 'l' then FlagsEnd(fmt, i + 1, args, a, fl.(lflag := fl.lflag + 1))
    else Some((i, a, fl))
  }

  lemma {:induction false} FlagsSkipped(fmt: CString, start: nat, i: nat, args: seq<Arg>, a: nat, fl: Flags)
    requires 1 <= start <= i <= |fmt| && fmt[start - 1] == '%' && forall k :: start <= k < i ==> fmt[k] != '%'
    requires -0x8000_0000 <= fl.precision
    ensures Escape(fmt, start, i, args, a, fl) == match FlagsEnd(fmt, i, args, a, fl)
              case None => None
              case Some((j, a', fl')) => Escape(fmt, start, j, args, a', fl')
    decreases |fmt| - i
  {
    var ch := At(fmt, i);
    if ch == '-' || ch == '0' {
      FlagsSkipped(fmt, start, i + 1, args, a, fl.(padc := ch));
    } else if '1' <= ch <= '9' {
      var (n, j) := ScanNumber(fmt, i, 0);
      FlagsSkipped(fmt, start, j, args, a, WithNumber(fl, n));
    } else if ch == '*' {
      match TakeSigned(args, a, 0)
      case None =>
      case Some(n) => FlagsSkipped(fmt, start, i + 1, args, a + 1, WithNumber(fl, n));
    } else if ch == '.' {
      FlagsSkipped(fmt, start, i + 1, args, a, fl.(width := Max(0, fl.width)));
    } else if ch == '#' {
      FlagsSkipped(fmt, start, i + 1, args, a, fl.(alt := true));
    } else if ch == 'l' {
      FlagsSkipped(fmt, start, i + 1, args, a, fl.(lflag := fl.lflag + 1));
    }
  }

  /** An escape with an unknown (or missing) conversion is printed as it stands,
      with everything after it up to the next '%' or the end of the format. */
  lemma UnknownEscapeEchoed(fmt: CString, i: nat, args: seq<Arg>, a: nat)
    requires i < |fmt| && fmt[i] == '%'
    ensures match FlagsEnd(fmt, i + 1, args, a, NO_FLAGS)
            case None => Literal(fmt, i, args, a) == None
            case Some((j, a', _)) =>
              At(fmt, j) !in "cesduopx%" ==>
                var np := NextPercent(fmt, i + 1);
                j <= np && Literal(fmt, i, args, a) == Glue(fmt[i..np], Literal(fmt, np, args, a'))
  {
    FlagsSkipped(fmt, i + 1, i + 1, args, a, NO_FLAGS);
    match FlagsEnd(fmt, i + 1, args, a, NO_FLAGS)
    case None =>
    case Some((j, a', _)) =>
      if At(fmt, j) !in "cesduopx%" {
        var np := NextPercent(fmt, i + 1);
        LiteralRun(fmt, i + 1, args, a');
        GlueTwice("%", fmt[i + 1..np], Literal(fmt, np, args, a'));
        assert "%" + fmt[i + 1..np] == fmt[i..np];
      }
  }

  // ----- widths -----

  /** Numbers fill at least their width, never less than their digits. */
  lemma PaddedLength(num: nat, base: nat, width: int, padc: char)
    requires 2 <= base <= 16
    ensures |Padded(num, base, width, padc)| == Max(width, |Digits(num, base)|)
  {
  }

  /** %s fills the width with what the precision lets through: spaces behind it
      under the '-' flag, the pad character in front of it otherwise. */
  lemma StringWidth(s: CString, fl: Flags)
    requires -0x8000_0000 <= fl.precision && |s| < 0x8000_0000
    ensures var text, body := StringText(s, fl), MaskedAll(Shown(s, fl.precision), fl.alt);
            && |text| == Max(fl.width, if fl.precision < 0 then |s| else Min(|s|, fl.precision))
            && |body| == |Shown(s, fl.precision)|
            && (fl.padc == '-' ==> text == body + Repeat(' ', |text| - |body|))
            && (fl.padc != '-' ==> text == Repeat(fl.padc, |text| - |body|) + body)
  {
  }

  // ----- error texts -----

  /** "error %d" with a code not in the table, and the message otherwise. */
  lemma ErrorTexts(err: nat)
    requires err < 0x8000_0000
    ensures ErrorText(err) == Some(match ErrorString(err)
                                   case None => "error " + Digits(err, 10)
                                   case Some(msg) => msg)
  {
    match ErrorString(err)
    case None =>
      DecimalAfter("error %d", 6, err);
      assert "error %d"[..6] == "error ";
    case Some(msg) => StringAlone(msg);
  }

  lemma DecimalAfter(fmt: CString, i: nat, num: nat)
    requires i + 2 == |fmt| && fmt[i] == '%' && fmt[i + 1] == 'd' && num < 0x8000_0000
    requires forall k :: 0 <= k < i ==> fmt[k] != '%'
    ensures Literal(fmt, 0, [Word32(num)], 0) == Some(fmt[..i] + Digits(num, 10))
  {
    var args := [Word32(num)];
    LiteralRun(fmt, 0, args, 0);
    assert fmt[0..i] == fmt[..i];
    assert Padded(num, 10, -1, ' ') == "" + Digits(num, 10) == Digits(num, 10);
    assert Literal(fmt, i + 2, args, 1) == Some("");
    assert Escape(fmt, i + 1, i + 1, args, 0, NO_FLAGS) == Glue(Digits(num, 10), Some(""));
    assert Digits(num, 10) + "" == Digits(num, 10);
  }

  lemma StringAlone(msg: CString)
    ensures Literal("%s", 0, [Str(msg)], 0) == Some(msg)
  {
    var args := [Str(msg)];
    assert StringText(msg, NO_FLAGS) == msg + "" == msg;
    assert Literal("%s", 2, args, 1) == Some("");
    assert Escape("%s", 1, 1, args, 0, NO_FLAGS) == Glue(msg, Some(""));
    assert msg + "" == msg;
  }

  /** From argument `a` on the two lists agree. */
  predicate SameFrom(args: seq<Arg>, args': seq<Arg>, a: nat) {
    |args| == |args'| && forall k :: a <= k < |args| ==> args[k] == args'[k]
  }

  /** Text depends on the arguments still to come only. */
  lemma {:induction false} LiteralAgrees(fmt: CString, i: nat, args: seq<Arg>, args': seq<Arg>, a: nat)
    requires i <= |fmt| && SameFrom(args, args', a)
    ensures Literal(fmt, i, args, a) == Literal(fmt, i, args', a)
    decreases |fmt| - NextPercent(fmt, i), 0, |fmt| - i
  {
    if i < |fmt| {
      if fmt[i] != '%' {
        LiteralAgrees(fmt, i + 1, args, args', a);
      } else {
        EscapeAgrees(fmt, i + 1, i + 1, args, args', a, NO_FLAGS);
      }
    }
  }

  lemma {:induction false} EscapeAgrees(fmt: CString, start: nat, i: nat,
                                       args: seq<Arg>, args': seq<Arg>, a: nat, fl: Flags)
    requires 1 <= start <= i <= |fmt| && fmt[start - 1] == '%' && forall k :: start <= k < i ==> fmt[k] != '%'
    requires -0x8000_0000 <= fl.precision && SameFrom(args, args', a)
    ensures Escape(fmt, start, i, args, a, fl) == Escape(fmt, start, i, args', a, fl)
    decreases |fmt| - NextPercent(fmt, i), 2, 0
  {
    FlagsSkipped(fmt, start, i, args, a, fl);
    FlagsSkipped(fmt, start, i, args', a, fl);
    FlagsAgree(fmt, i, args, args', a, fl);
    match FlagsEnd(fmt, i, args, a, fl)
    case None =>
    case Some((j, a', fl')) => ConversionAgrees(fmt, start, j, args, args', a', fl');
  }

  lemma ConversionReads(ch: char, fl: Flags, args: seq<Arg>, args': seq<Arg>, a: nat)
    requires -0x8000_0000 <= fl.precision && SameFrom(args, args', a)
    ensures Conversion(ch, fl, args, a) == Conversion(ch, fl, args', a)
    ensures Conversion(ch, fl, args, a).Some? ==>
      Conversion(ch, fl, args, a).value.1 == if ch in "o%" then a else a + 1
  {
  }

  lemma {:induction false} ConversionAgrees(fmt: CString, start: nat, i: nat,
                                           args: seq<Arg>, args': seq<Arg>, a: nat, fl: Flags)
    requires 1 <= start <= i <= |fmt| && fmt[start - 1] == '%' && forall k :: start <= k < i ==> fmt[k] != '%'
    requires -0x8000_0000 <= fl.precision && SameFrom(args, args', a)
    requires At(fmt, i) !in "-0*.#l" && !IsDigit(At(fmt, i))
    ensures Escape(fmt, start, i, args, a, fl) == Escape(fmt, start, i, args', a, fl)
    decreases |fmt| - NextPercent(fmt, i), 1, 0
  {
    if i == |fmt| || fmt[i] !in "cesduopx%" {
      LiteralAgrees(fmt, start, args, args', a);
    } else {
      ConversionReads(fmt[i], fl, args, args', a);
      LiteralAgrees(fmt, i + 1, args, args', if fmt[i] in "o%" then a else a + 1);
    }
  }

  lemma {:induction false} FlagsAgree(fmt: CString, i: nat, args: seq<Arg>, args': seq<Arg>, a: nat, fl: Flags)
    requires i <= |fmt| && -0x8000_0000 <= fl.precision && SameFrom(args, args', a)
    ensures FlagsEnd(fmt, i, args, a, fl) == FlagsEnd(fmt, i, args', a, fl)
    ensures FlagsEnd(fmt, i, args, a, fl).Some? ==> FlagsEnd(fmt, i, args, a, fl).value.1 >= a
    decreases |fmt| - i
  {
    var ch := At(fmt, i);
    if ch == '-' || ch == '0' {
      FlagsAgree(fmt, i + 1, args, args', a, fl.(padc := ch));
    } else if '1' <= ch <= '9' {
      var (n, j) := ScanNumber(fmt, i, 0);
      FlagsAgree(fmt, j, args, args', a, WithNumber(fl, n));
    } else if ch == '*' {
      match TakeSigned(args, a, 0)
      case None =>
      case Some(n) => FlagsAgree(fmt, i + 1, args, args', a + 1, WithNumber(fl, n));
    } else if ch == '.' {
      FlagsAgree(fmt, i + 1, args, args', a, fl.(width := Max(0, fl.width)));
    } else if ch == '#' {
      FlagsAgree(fmt, i + 1, args, args', a, fl.(alt := true));
    } else if ch == 'l' {
      FlagsAgree(fmt, i + 1, args, args', a, fl.(lflag := fl.lflag + 1));
    }
  }

  /** %e prints the same for a code and for its negation, in every format. */
  lemma ErrorSignIgnored(fmt: CString, start: nat, i: nat, args: seq<Arg>, a: nat, fl: Flags, err: int)
    requires 1 <= start <= i < |fmt| && fmt[start - 1] == '%' && forall k :: start <= k < i ==> fmt[k] != '%'
    requires -0x8000_0000 <= fl.precision && fmt[i] == 'e' && 0 < err < 0x8000_0000
    requires a < |args| && args[a] == Word32(err)
    ensures Escape(fmt, start, i, args, a, fl) == Escape(fmt, start, i, args[a := Word32(TWO32 - err)], a, fl)
  {
    LiteralAgrees(fmt, i + 1, args, args[a := Word32(TWO32 - err)], a + 1);
  }

  // ----- text that reads back -----

  /** %d, any width, either padding and any length: strtol gives the number back
      exactly when it fits a `long` and no spaces come between a minus sign and the
      digits. */
  lemma DecimalRoundTrip(v: int, width: int, padc: char)
    requires padc in " 0"
    ensures var text := SignedText(v, width, padc);
            && '\0' !in text
            && (Parse(text, 10) == Some(Parsed(v, |text|))
                <==> FitsLong(v) && (v >= 0 || padc == '0' || width <= |Digits(-v, 10)|))
  {
    if v >= 0 {
      StrtolUndoesPrintnum(v, 10, width, padc);
    } else {
      NegativeReads(-v, width, padc);
    }
  }

  lemma NegativeReads(num: nat, width: int, padc: char)
    requires 0 < num && padc in " 0"
    ensures var text := "-" + Padded(num, 10, width, padc);
            && '\0' !in text
            && (Parse(text, 10) == Some(Parsed(0 - num as int, |text|))
                <==> num <= LONG_MAX && (padc == '0' || width <= |Digits(num, 10)|))
  {
    var p, n := Padded(num, 10, width, padc), Max(0, width - |Digits(num, 10)|);
    var text := "-" + p;
    PaddedParts(num, 10, width, padc);
    assert text[1..] == p && text[1 + n..] == p[n..];
    if padc == '0' || n == 0 {
      MinusReads(text, n, num, 10);
    } else {
      assert text[1] == p[0] == ' ';
      AfterMinus(text, 10);
    }
  }

  /** After a minus sign strtol takes digits at once, or nothing. */
  lemma AfterMinus(text: CString, base: nat)
    requires |text| >= 1 && text[0] == '-' && base > 0
    requires base == 16 && |text| >= 3 ==> text[2] != 'x'
    ensures Parse(text, base) == match ParseDigits(text, 1, base, 0)
                                 case None => None
                                 case Some((val, end)) => Some(Parsed(0 - val as int, end))
    ensures |text| >= 2 && !InBase(text[1], base) ==> Parse(text, base) == Some(Parsed(0, 1))
  {
  }

  /** %p reads back with base 0 exactly when the address fits a `long` and nothing but
      zeros comes between "0x" and its digits. */
  lemma PointerRoundTrip(w: nat, width: int, padc: char)
    requires padc in " 0-"
    ensures var text := "0x" + Padded(w, 16, width, padc);
            && '\0' !in text
            && (Parse(text, 0) == Some(Parsed(w, |text|))
                <==> w <= LONG_MAX && (padc == '0' || width <= |Digits(w, 16)|))
  {
    PaddedParts(w, 16, width, padc);
    var p := Padded(w, 16, width, padc);
    var n := Max(0, width - |Digits(w, 16)|);
    var text := "0x" + p;
    assert text[2..] == p && text[2 + n..] == p[n..];
    assert Prefix(text, 0, 0) == (2, 16);
    if padc == '0' || n == 0 {
      assert forall k :: 2 <= k < 2 + n ==> text[k] == p[k - 2];
      NumberReads(text, 2, n, w, 16);
    } else {
      assert text[2] == p[0] == padc;
      assert ParseDigits(text, 2, 16, 0) == Some((0, 2));
      assert Parse(text, 0) == Some(Parsed(0, 2));
    }
  }

  /** Under the '-' flag numbers are padded on the left with '-' characters, and
      do not read back as themselves once there is room to pad (zero alone can,
      behind a single one), in any base. */
  lemma DashPadding(num: nat, base: nat, width: int)
    requires 2 <= base <= 16
    ensures var text := Padded(num, base, width, '-');
            && '\0' !in text
            && (Parse(text, base) == Some(Parsed(num, |text|))
                <==> num <= LONG_MAX && (width <= |Digits(num, base)| || (num == 0 && width == 2)))
  {
    var digits, text := Digits(num, base), Padded(num, base, width, '-');
    PaddedParts(num, base, width, '-');
    if width <= |digits| {
      assert text == digits == Padded(num, base, 0, ' ');
      StrtolUndoesPrintnum(num, base, 0, ' ');
    } else if width == |digits| + 1 {
      MinusReads(text, 0, num, base);
    } else {
      AfterMinus(text, base);
      assert text[1] == '-';
    }
  }

  /** A minus sign, some zeros, and a number's digits. */
  lemma MinusReads(text: CString, n: nat, num: nat, base: nat)
    requires 2 <= base <= 16 && |text| >= 1 + n && text[0] == '-' && text[1 + n..] == Digits(num, base)
    requires forall k :: 1 <= k < 1 + n ==> text[k] == '0'
    ensures Parse(text, base) == if num > LONG_MAX then None else Some(Parsed(0 - num as int, |text|))
  {
    DigitsArePlain(num, base);
    assert forall k :: 1 + n <= k < |text| ==> text[k] == Digits(num, base)[k - 1 - n];
    AfterMinus(text, base);
    NumberReads(text, 1, n, num, base);
  }

  /** Negative numbers under the '-' flag read back when there is no room to pad. */
  lemma DashNegative(num: nat, width: int)
    requires 0 < num
    ensures var text := "-" + Padded(num, 10, width, '-');
            && '\0' !in text
            && (Parse(text, 10) == Some(Parsed(0 - num as int, |text|))
                <==> num <= LONG_MAX && width <= |Digits(num, 10)|)
  {
    var p := Padded(num, 10, width, '-');
    var text := "-" + p;
    PaddedParts(num, 10, width, '-');
    assert text[1..] == p;
    if width <= |Digits(num, 10)| {
      assert p == Digits(num, 10);
      MinusReads(text, 0, num, 10);
    } else {
      assert text[1] == p[0] == '-';
      AfterMinus(text, 10);
    }
  }
}
