/** Escapes as they are written in a format: the flags they stand for, and numbers
    printed through them that strtol reads back (lib/printfmt.c, lib/string.c). */
module FormatText {
  import opened Wrappers
  import opened Bytes
  import opened PrintFmt
  import opened PrintFmtRun
  import opened StrTol
  import opened FormatLaws

  // ----- the text of an escape -----

  /** An escape written out: a pad flag (none for ' '), '#', width, precision, 'l's
      and the conversion. */
  datatype Spec = Spec(padc: char, alt: bool, width: Option<nat>, precision: Option<nat>, lflag: nat, conv: char) {
    predicate Valid() {
      && padc in " 0-" && (width.Some? ==> width.value >= 1) && (precision.Some? ==> precision.value >= 1)
      && conv in "cesduopx%"
    }

    function Text(): string { "%" + FromPad() }

    function FromPad(): string { PadText(padc) + FromAlt() }
    function FromAlt(): string { AltText(alt) + FromWidth() }
    function FromWidth(): string { WidthText(width) + FromPrecision() }

    function FromPrecision(): (s: string)
      ensures |s| >= 1 && (!IsDigit(conv) ==> !IsDigit(s[0]))
    {
      PrecisionText(precision) + FromLong()
    }

    function FromLong(): (s: string)
      ensures |s| >= 1 && (!IsDigit(conv) ==> !IsDigit(s[0]))
    {
      Repeat('l', lflag) + [conv]
    }

    function Meaning(): Flags {
      Flags(padc,
                  match width case Some(n) => n case None => if precision.Some? then 0 else -1,
                  match precision case Some(n) => n case None => -1,
                  lflag, alt)
    }
  }

  function PadText(padc: char): string { if padc == ' ' then "" else [padc] }
  function AltText(alt: bool): string { if alt then "#" else "" }
  function WidthText(n: Option<nat>): string { match n case None => "" case Some(v) => Digits(v, 10) }
  function PrecisionText(n: Option<nat>): string { match n case None => "" case Some(v) => "." + Digits(v, 10) }

  lemma HoldsParts(s: string, i: nat, t: string, u: string)
    ensures Holds(s, i, t + u) <==> Holds(s, i, t) && Holds(s, i + |t|, u)
  {
    if i + |t| + |u| <= |s| {
      assert s[i..i + |t| + |u|] == s[i..i + |t|] + s[i + |t|..i + |t| + |u|];
      assert s[i..i + |t|] == s[i..i + |t| + |u|][..|t|];
      assert s[i + |t|..i + |t| + |u|] == s[i..i + |t| + |u|][|t|..];
    }
  }

  lemma HoldsChar(s: string, i: nat, c: char)
    ensures Holds(s, i, [c]) <==> i < |s| && s[i] == c
  {
    if i < |s| { assert s[i..i + 1] == [s[i]]; }
  }

  lemma HoldsFirst(s: string, i: nat, t: string)
    requires Holds(s, i, t) && t != ""
    ensures i < |s| && s[i] == t[0]
  {
    assert s[i] == s[i..i + |t|][0];
  }

  // ----- what the flags of a text are -----

  lemma LastDigitScan(fmt: CString, i: nat, n: nat)
    requires i < |fmt| && fmt[i] == DigitOf(n % 10)
    ensures ScanNumber(fmt, i, n / 10) == ScanNumber(fmt, i + 1, n)
  {
  }

  /** Reading the digits of a number. */
  lemma {:induction false} DigitsScan(fmt: CString, i: nat, n: nat)
    requires Holds(fmt, i, Digits(n, 10))
    ensures ScanNumber(fmt, i, 0) == ScanNumber(fmt, i + |Digits(n, 10)|, n)
  {
    if n >= 10 {
      DigitsSplit(fmt, i, n, 10);
      DigitsScan(fmt, i, n / 10);
      LastDigitScan(fmt, i + |Digits(n / 10, 10)|, n);
    } else {
      HoldsChar(fmt, i, DigitOf(n));
    }
  }

  /** A positive number starts with a digit that is not 0. */
  lemma {:induction false} LeadingDigit(n: nat)
    requires n >= 1
    ensures '1' <= Digits(n, 10)[0] <= '9'
  {
    if n >= 10 {
      LeadingDigit(n / 10);
    }
  }

  lemma NumberFlag(fmt: CString, i: nat, args: seq<Arg>, a: nat, fl: Flags, n: nat)
    requires n >= 1 && Holds(fmt, i, Digits(n, 10)) && !IsDigit(At(fmt, i + |Digits(n, 10)|))
    requires -0x8000_0000 <= fl.precision
    ensures FlagsEnd(fmt, i, args, a, fl) == FlagsEnd(fmt, i + |Digits(n, 10)|, args, a, WithNumber(fl, n))
  {
    LeadingDigit(n);
    DigitsScan(fmt, i, n);
    assert fmt[i] == fmt[i..i + |Digits(n, 10)|][0];
  }

  lemma PadFlag(fmt: CString, i: nat, args: seq<Arg>, a: nat, fl: Flags, padc: char)
    requires Holds(fmt, i, PadText(padc)) && padc in " 0-" && fl.padc == ' ' && -0x8000_0000 <= fl.precision
    ensures FlagsEnd(fmt, i, args, a, fl) == FlagsEnd(fmt, i + |PadText(padc)|, args, a, fl.(padc := padc))
  {
    HoldsChar(fmt, i, padc);
  }

  lemma AltFlag(fmt: CString, i: nat, args: seq<Arg>, a: nat, fl: Flags, alt: bool)
    requires Holds(fmt, i, AltText(alt)) && !fl.alt && -0x8000_0000 <= fl.precision
    ensures FlagsEnd(fmt, i, args, a, fl) == FlagsEnd(fmt, i + |AltText(alt)|, args, a, fl.(alt := alt))
  {
    HoldsChar(fmt, i, '#');
  }

  lemma WidthFlag(fmt: CString, i: nat, args: seq<Arg>, a: nat, fl: Flags, width: Option<nat>)
    requires Holds(fmt, i, WidthText(width)) && !IsDigit(At(fmt, i + |WidthText(width)|))
    requires (width.Some? ==> width.value >= 1) && fl.width == fl.precision == -1
    ensures FlagsEnd(fmt, i, args, a, fl)
         == FlagsEnd(fmt, i + |WidthText(width)|, args, a, fl.(width := match width case None => -1 case Some(n) => n))
  {
    match width
    case None =>
    case Some(n) => NumberFlag(fmt, i, args, a, fl, n);
  }

  function WithPrecision(fl: Flags, precision: Option<nat>): Flags {
    match precision
    case None => fl
    case Some(n) => fl.(width := Max(0, fl.width), precision := n)
  }

  lemma PrecisionFlag(fmt: CString, i: nat, args: seq<Arg>, a: nat, fl: Flags, precision: Option<nat>)
    requires Holds(fmt, i, PrecisionText(precision)) && !IsDigit(At(fmt, i + |PrecisionText(precision)|))
    requires (precision.Some? ==> precision.value >= 1) && fl.precision == -1
    ensures FlagsEnd(fmt, i, args, a, fl)
         == FlagsEnd(fmt, i + |PrecisionText(precision)|, args, a, WithPrecision(fl, precision))
  {
    match precision
    case None =>
    case Some(n) =>
      HoldsParts(fmt, i, ".", Digits(n, 10));
      HoldsChar(fmt, i, '.');
      NumberFlag(fmt, i + 1, args, a, fl.(width := Max(0, fl.width)), n);
  }

  lemma {:induction false} LongFlag(fmt: CString, i: nat, args: seq<Arg>, a: nat, fl: Flags, n: nat)
    requires i + n <= |fmt| && (forall k :: i <= k < i + n ==> fmt[k] == 'l') && -0x8000_0000 <= fl.precision
    ensures FlagsEnd(fmt, i, args, a, fl) == FlagsEnd(fmt, i + n, args, a, fl.(lflag := fl.lflag + n))
    decreases n
  {
    if n > 0 {
      LongFlag(fmt, i + 1, args, a, fl.(lflag := fl.lflag + 1), n - 1);
    }
  }

  lemma RepeatHeld(fmt: CString, i: nat, c: char, n: nat)
    requires Holds(fmt, i, Repeat(c, n))
    ensures i + n <= |fmt| && forall k :: i <= k < i + n ==> fmt[k] == c
  {
    forall k | i <= k < i + n ensures fmt[k] == c {
      assert fmt[k] == fmt[i..i + n][k - i];
    }
  }

  lemma LongParts(fmt: CString, i: nat, n: nat, conv: char)
    requires Holds(fmt, i, Repeat('l', n) + [conv])
    ensures i + n < |fmt| && fmt[i + n] == conv && forall k :: i <= k < i + n ==> fmt[k] == 'l'
  {
    HoldsParts(fmt, i, Repeat('l', n), [conv]);
    HoldsChar(fmt, i + n, conv);
    RepeatHeld(fmt, i, 'l', n);
  }

  lemma FlagsStop(fmt: CString, i: nat, args: seq<Arg>, a: nat, fl: Flags)
    requires i < |fmt| && fmt[i] in "cesduopx%" && -0x8000_0000 <= fl.precision
    ensures FlagsEnd(fmt, i, args, a, fl) == Some((i, a, fl))
  {
  }

  /** The rest of an escape, part by part from the back. */
  lemma ReadFromLong(fmt: CString, i: nat, args: seq<Arg>, a: nat, fl: Flags, n: nat, conv: char)
    requires conv in "cesduopx%" && Holds(fmt, i, Repeat('l', n) + [conv])
    requires -0x8000_0000 <= fl.precision && fl.lflag == 0
    ensures i + n < |fmt| && fmt[i + n] == conv && FlagsEnd(fmt, i, args, a, fl) == Some((i + n, a, fl.(lflag := n)))
  {
    LongParts(fmt, i, n, conv);
    LongFlag(fmt, i, args, a, fl, n);
    FlagsStop(fmt, i + n, args, a, fl.(lflag := n));
  }

  lemma PrecisionParts(fmt: CString, i: nat, spec: Spec)
    requires spec.Valid() && Holds(fmt, i, spec.FromPrecision())
    ensures var i' := i + |PrecisionText(spec.precision)|;
            && Holds(fmt, i, PrecisionText(spec.precision)) && Holds(fmt, i', Repeat('l', spec.lflag) + [spec.conv])
            && !IsDigit(At(fmt, i')) && i + |spec.FromPrecision()| == i' + spec.lflag + 1
  {
    HoldsParts(fmt, i, PrecisionText(spec.precision), spec.FromLong());
    HoldsFirst(fmt, i + |PrecisionText(spec.precision)|, spec.FromLong());
  }

  lemma ReadFromPrecision(fmt: CString, i: nat, args: seq<Arg>, a: nat, fl: Flags, spec: Spec, end: nat)
    requires spec.Valid() && Holds(fmt, i, spec.FromPrecision()) && end + 1 == i + |spec.FromPrecision()|
    requires fl.precision == -1 && fl.lflag == 0
    ensures end < |fmt| && fmt[end] == spec.conv
    ensures FlagsEnd(fmt, i, args, a, fl) == Some((end, a, WithPrecision(fl, spec.precision).(lflag := spec.lflag)))
  {
    var i' := i + |PrecisionText(spec.precision)|;
    PrecisionParts(fmt, i, spec);
    PrecisionFlag(fmt, i, args, a, fl, spec.precision);
    ReadFromLong(fmt, i', args, a, WithPrecision(fl, spec.precision), spec.lflag, spec.conv);
  }

  lemma WidthParts(fmt: CString, i: nat, spec: Spec)
    requires spec.Valid() && Holds(fmt, i, spec.FromWidth())
    ensures var i' := i + |WidthText(spec.width)|;
            && Holds(fmt, i, WidthText(spec.width)) && Holds(fmt, i', spec.FromPrecision()) && !IsDigit(At(fmt, i'))
            && i + |spec.FromWidth()| == i' + |spec.FromPrecision()|
  {
    HoldsParts(fmt, i, WidthText(spec.width), spec.FromPrecision());
    HoldsFirst(fmt, i + |WidthText(spec.width)|, spec.FromPrecision());
  }

  lemma ReadFromWidth(fmt: CString, i: nat, args: seq<Arg>, a: nat, spec: Spec, end: nat)
    requires spec.Valid() && Holds(fmt, i, spec.FromWidth()) && end + 1 == i + |spec.FromWidth()|
    ensures end < |fmt| && fmt[end] == spec.conv
    ensures FlagsEnd(fmt, i, args, a, Flags(spec.padc, -1, -1, 0, spec.alt)) == Some((end, a, spec.Meaning()))
  {
    var fl := Flags(spec.padc, -1, -1, 0, spec.alt);
    WidthParts(fmt, i, spec);
    var fl' := fl.(width := match spec.width case None => -1 case Some(n) => n);
    ReadFromPrecision(fmt, i + |WidthText(spec.width)|, args, a, fl', spec, end);
    WidthFlag(fmt, i, args, a, fl, spec.width);
  }

  lemma PadParts(fmt: CString, i: nat, spec: Spec)
    requires spec.Valid() && Holds(fmt, i, spec.FromPad())
    ensures var alt := i + |PadText(spec.padc)|;
            && Holds(fmt, i, PadText(spec.padc)) && Holds(fmt, alt, spec.FromAlt())
            && i + |spec.FromPad()| == alt + |spec.FromAlt()|
  {
    HoldsParts(fmt, i, PadText(spec.padc), spec.FromAlt());
  }

  lemma AltParts(fmt: CString, i: nat, spec: Spec)
    requires spec.Valid() && Holds(fmt, i, spec.FromAlt())
    ensures var width := i + |AltText(spec.alt)|;
            && Holds(fmt, i, AltText(spec.alt)) && Holds(fmt, width, spec.FromWidth())
            && i + |spec.FromAlt()| == width + |spec.FromWidth()|
  {
    HoldsParts(fmt, i, AltText(spec.alt), spec.FromWidth());
  }

  lemma ReadFromAlt(fmt: CString, i: nat, args: seq<Arg>, a: nat, spec: Spec, end: nat)
    requires spec.Valid() && Holds(fmt, i, spec.FromAlt()) && end + 1 == i + |spec.FromAlt()|
    ensures end < |fmt| && fmt[end] == spec.conv
    ensures FlagsEnd(fmt, i, args, a, Flags(spec.padc, -1, -1, 0, false)) == Some((end, a, spec.Meaning()))
  {
    AltParts(fmt, i, spec);
    AltFlag(fmt, i, args, a, Flags(spec.padc, -1, -1, 0, false), spec.alt);
    ReadFromWidth(fmt, i + |AltText(spec.alt)|, args, a, spec, end);
  }

  lemma ReadFromPad(fmt: CString, i: nat, args: seq<Arg>, a: nat, spec: Spec, end: nat)
    requires spec.Valid() && Holds(fmt, i, spec.FromPad()) && end + 1 == i + |spec.FromPad()|
    ensures end < |fmt| && fmt[end] == spec.conv
    ensures FlagsEnd(fmt, i, args, a, NO_FLAGS) == Some((end, a, spec.Meaning()))
  {
    PadParts(fmt, i, spec);
    PadFlag(fmt, i, args, a, NO_FLAGS, spec.padc);
    ReadFromAlt(fmt, i + |PadText(spec.padc)|, args, a, spec, end);
  }

  /** An escape anywhere in a format means the flags it was written for. */
  lemma FlagsOfText(fmt: CString, i: nat, args: seq<Arg>, a: nat, spec: Spec)
    requires spec.Valid() && Holds(fmt, i, spec.Text())
    ensures var end := i + |spec.Text()| - 1;
            && i < end < |fmt| && fmt[i] == '%' && fmt[end] == spec.conv
            && FlagsEnd(fmt, i + 1, args, a, NO_FLAGS) == Some((end, a, spec.Meaning()))
  {
    HoldsParts(fmt, i, "%", spec.FromPad());
    HoldsChar(fmt, i, '%');
    ReadFromPad(fmt, i + 1, args, a, spec, i + |spec.Text()| - 1);
  }

  /** So it prints what its conversion makes of them. */
  lemma TextPrints(fmt: CString, i: nat, args: seq<Arg>, a: nat, spec: Spec)
    requires spec.Valid() && spec.conv != 'e' && Holds(fmt, i, spec.Text())
    ensures i + |spec.Text()| <= |fmt|
    ensures Literal(fmt, i, args, a) == match Conversion(spec.conv, spec.Meaning(), args, a)
              case None => None
              case Some((text, a')) => Glue(text, Literal(fmt, i + |spec.Text()|, args, a'))
  {
    FlagsOfText(fmt, i, args, a, spec);
    FlagsSkipped(fmt, i + 1, i + 1, args, a, NO_FLAGS);
  }

  /** A 0 that starts a precision is taken for the pad flag; alone it is no precision. */
  lemma ZeroPrecision()
    ensures FlagsEnd("%8.03s", 1, [], 0, NO_FLAGS) == Some((5, 0, Flags('0', 8, 3, 0, false)))
    ensures FlagsEnd("%.0s", 1, [], 0, NO_FLAGS) == Some((3, 0, Flags('0', 0, -1, 0, false)))
  {
  }

  /** Some escapes. */
  lemma Texts()
    ensures Spec('0', false, Some(5), None, 0, 'd').Text() == "%05d"
    ensures Spec('-', false, Some(8), Some(3), 0, 's').Text() == "%-8.3s"
    ensures Spec(' ', false, None, None, 2, 'd').Text() == "%lld"
  {
  }

  // ----- numbers printed through them, and read back -----

  /** The number a conversion prints. */
  function Value(conv: char, lflag: nat, args: seq<Arg>, a: nat): Option<int> {
    if conv == 'd' then TakeSigned(args, a, lflag)
    else match TakeUnsigned(args, a, if conv == 'p' then 0 else lflag)
      case None => None
      case Some(w) => Some(w)
  }

  /** The base to read it back in. */
  function ReadBase(conv: char): nat {
    match conv
    case 'x' => 16
    case 'p' => 0
    case _ => 10
  }

  /** When it reads back: it fits a `long`, and what fills the width before its digits
      is zeros, or spaces with no sign or "0x" in front of them, or one '-' before a 0. */
  predicate ReadsBack(conv: char, v: int, width: int, padc: char) {
    && FitsLong(v)
    && (|| padc == '0' || width <= |Digits(if v < 0 then -v else v, if conv in "px" then 16 else 10)|
        || (conv != 'p' && v >= 0 && padc == ' ')
        || (conv != 'p' && v == 0 && padc == '-' && width == 2))
  }

  /** Its text. */
  function NumberText(conv: char, v: int, width: int, padc: char): string
    requires conv in "duxp" && (v >= 0 || conv == 'd')
  {
    match conv
    case 'd' => SignedText(v, width, padc)
    case 'p' => "0x" + Padded(v, 16, width, padc)
    case 'x' => Padded(v, 16, width, padc)
    case _ => Padded(v, 10, width, padc)
  }

  lemma UnsignedReadsBack(conv: char, v: nat, width: int, padc: char)
    requires conv in "ux" && padc in " 0-"
    ensures var text := Padded(v, ReadBase(conv), width, padc);
            && '\0' !in text
            && (Parse(text, ReadBase(conv)) == Some(Parsed(v, |text|)) <==> ReadsBack(conv, v, width, padc))
  {
    if padc == '-' {
      DashPadding(v, ReadBase(conv), width);
    } else {
      StrtolUndoesPrintnum(v, ReadBase(conv), width, padc);
    }
  }

  lemma NegativeReadsBack(num: nat, width: int, padc: char)
    requires num > 0 && padc in " 0-"
    ensures var text, v := "-" + Padded(num, 10, width, padc), 0 - num as int;
            '\0' !in text && (Parse(text, 10) == Some(Parsed(v, |text|)) <==> ReadsBack('d', v, width, padc))
  {
    if padc == '-' {
      DashNegative(num, width);
    } else {
      NegativeReads(num, width, padc);
    }
  }

  lemma SignedReadsBack(v: int, width: int, padc: char)
    requires padc in " 0-"
    ensures var text := SignedText(v, width, padc);
            '\0' !in text && (Parse(text, 10) == Some(Parsed(v, |text|)) <==> ReadsBack('d', v, width, padc))
  {
    if v >= 0 {
      UnsignedReadsBack('u', v, width, padc);
    } else {
      NegativeReadsBack(-v, width, padc);
    }
  }

  lemma NumberReadsBack(conv: char, v: int, width: int, padc: char)
    requires conv in "duxp" && padc in " 0-" && (v >= 0 || conv == 'd')
    ensures var text := NumberText(conv, v, width, padc);
            && '\0' !in text
            && (Parse(text, ReadBase(conv)) == Some(Parsed(v, |text|)) <==> ReadsBack(conv, v, width, padc))
  {
    if conv == 'd' {
      SignedReadsBack(v, width, padc);
    } else if conv == 'p' {
      PointerRoundTrip(v, width, padc);
    } else {
      UnsignedReadsBack(conv, v, width, padc);
    }
  }

  /** The most negative 64-bit number cannot be printed: its negation overflows. */
  const LLONG_MIN: int := -0x8000_0000_0000_0000

  lemma ConversionText(conv: char, fl: Flags, args: seq<Arg>, a: nat)
    requires conv in "duxp" && -0x8000_0000 <= fl.precision
    ensures var v, c := Value(conv, fl.lflag, args, a), Conversion(conv, fl, args, a);
            && (c.None? <==> v.None? || v.value == LLONG_MIN)
            && (c.Some? ==> (v.value >= 0 || conv == 'd') && c.value.0 == NumberText(conv, v.value, fl.width, fl.padc))
  {
  }

  /** A number printed by an escape is read back to its end exactly when `ReadsBack`
      says so, whatever its flags. */
  lemma ConversionReadsBack(conv: char, fl: Flags, args: seq<Arg>, a: nat)
    requires conv in "duxp" && fl.padc in " 0-" && -0x8000_0000 <= fl.precision
    ensures var v, c := Value(conv, fl.lflag, args, a), Conversion(conv, fl, args, a);
            && (c.None? <==> v.None? || v.value == LLONG_MIN)
            && (c.Some? ==>
                  && '\0' !in c.value.0
                  && (Parse(c.value.0, ReadBase(conv)) == Some(Parsed(v.value, |c.value.0|))
                      <==> ReadsBack(conv, v.value, fl.width, fl.padc)))
  {
    ConversionText(conv, fl, args, a);
    var v := Value(conv, fl.lflag, args, a);
    if v.Some? && v.value != LLONG_MIN {
      NumberReadsBack(conv, v.value, fl.width, fl.padc);
    }
  }

  lemma TextIsCString(spec: Spec)
    requires spec.Valid()
    ensures '\0' !in spec.Text()
  {
    if spec.width.Some? { DigitsArePlain(spec.width.value, 10); }
    if spec.precision.Some? { DigitsArePlain(spec.precision.value, 10); }
  }

  /** The escape alone as a format. */
  lemma FormatOfText(spec: Spec, args: seq<Arg>)
    requires spec.Valid() && spec.conv != 'e' && '\0' !in spec.Text()
    ensures Format(spec.Text(), args) == match Conversion(spec.conv, spec.Meaning(), args, 0)
              case None => None
              case Some((text, _)) => Some(text)
  {
    var fmt := spec.Text();
    assert fmt[0..|fmt|] == fmt;
    TextPrints(fmt, 0, args, 0, spec);
    match Conversion(spec.conv, spec.Meaning(), args, 0)
    case None =>
    case Some((text, a')) =>
      assert Literal(fmt, |fmt|, args, a') == Some("");
      assert text + "" == text;
  }

  /** The string a buffer holds. */
  method StringIn(buf: array<char>) returns (s: CString)
    requires '\0' in buf[..]
    ensures |s| < buf.Length && buf[..|s|] == s && buf[|s|] == '\0'
  {
    var i := 0;
    while buf[i] != '\0'
      invariant 0 <= i < buf.Length && '\0' !in buf[..i] && '\0' in buf[i..]
      decreases buf.Length - i
    {
      i := i + 1;
    }
    s := buf[..i];
  }

  lemma StringPrinted(before: seq<char>, text: string, n: nat, s: CString)
    requires 1 <= n <= |before| && '\0' !in text
    requires var after := Splice(before, 0, Truncated(text, n));
             |s| < |after| && after[..|s|] == s && after[|s|] == '\0'
    ensures s == text[..Min(n - 1, |text|)]
  {
    var after, m := Splice(before, 0, Truncated(text, n)), Min(n - 1, |text|);
    assert after[m] == '\0' && after[..m] == text[..m];
    assert forall k :: 0 <= k < |s| ==> after[k] == s[k];
    assert forall k :: 0 <= k < m ==> after[k] == text[k];
  }

  /** Printing a number through an escape into a buffer of `n` bytes, and reading it
      back from there: it is the same number, read to its end, exactly when the buffer
      was large enough and the flags let it be. */
  method PrintThenParse(buf: array<char>, n: nat, spec: Spec, args: seq<Arg>)
    returns (ok: bool, rc: int, parsed: Option<Parsed>)
    requires 1 <= n <= buf.Length && spec.Valid() && spec.conv in "duxp"
    modifies buf
    ensures var v, fl := Value(spec.conv, spec.lflag, args, 0), spec.Meaning();
            && (ok <==> v.Some? && v.value != LLONG_MIN)
            && (ok ==> rc >= 0 && (parsed == Some(Parsed(v.value, rc))
                                   <==> rc < n && ReadsBack(spec.conv, v.value, fl.width, fl.padc)))
  {
    TextIsCString(spec);
    FormatOfText(spec, args);
    ConversionReadsBack(spec.conv, spec.Meaning(), args, 0);
    ghost var before := buf[..];
    ok, rc := VSNPrintF(buf, n, spec.Text(), args);
    if !ok {
      return ok, rc, None;
    }
    ghost var text := Format(spec.Text(), args).value;
    assert buf[Min(n - 1, |text|)] == '\0';
    var s := StringIn(buf);
    StringPrinted(before, text, n, s);
    parsed := Strtol(s, ReadBase(spec.conv));
    assert rc < n ==> s == text;
  }
}
