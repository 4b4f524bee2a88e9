/** Parsing numbers back: strtol of lib/string.c, against the printer of lib/printfmt.c. */
module StrTol {
  import opened Wrappers
  import opened Bytes
  import opened PrintFmt

  datatype Parsed = Parsed(value: int, end: nat)

  const NO_DIGIT: nat := 36

  /** The digit `c` stands for, or NO_DIGIT. */
  function DigitValue(c: char): nat {
    if '0' <= c <= '9' then (c - '0') as nat
    else if 'a' <= c <= 'z' then (c - 'a') as nat + 10
    else if 'A' <= c <= 'Z' then (c - 'A') as nat + 10
    else NO_DIGIT
  }

  /** `c` is a digit in base `base`, which is an `int`. */
  predicate InBase(c: char, base: int) {
    DigitValue(c) != NO_DIGIT && DigitValue(c) < base
  }

  function SkipBlanks(s: CString, i: nat): (r: nat)
    requires i <= |s|
    ensures i <= r <= |s|
    decreases |s| - i
  {
    if At(s, i) == ' ' || At(s, i) == '\t' then SkipBlanks(s, i + 1) else i
  }

  /** The number with digit `d` put behind it. */
  function Append(val: nat, base: nat, d: nat): nat {
    val * base + d
  }

  lemma AppendLast(num: nat, base: nat)
    requires 2 <= base
    ensures Append(num / base, base, num % base) == num
    ensures num / base <= num && num % base < base
    ensures num >= base ==> num / base < num
  {
    SmallMod(num, base);
  }

  /** The digits from `i` on; `None` when the value leaves the range of `long`. */
  function ParseDigits(s: CString, i: nat, base: int, val: nat): (r: Option<(nat, nat)>)
    requires i <= |s|
    ensures r.Some? ==> i <= r.value.1 <= |s|
    decreases |s| - i
  {
    if !InBase(At(s, i), base) then Some((val, i))
    else
      var val' := Append(val, base, DigitValue(s[i]));
      if val' > LONG_MAX then None else ParseDigits(s, i + 1, base, val')
  }

  /** Where the digits start once a prefix is taken, and the base they are in. */
  function Prefix(s: CString, i: nat, base: int): (r: (nat, int))
    requires i <= |s|
    ensures i <= r.0 <= |s|
  {
    if (base == 0 || base == 16) && At(s, i) == '0' && At(s, i + 1) == 'x' then (i + 2, 16)
    else if base == 0 && At(s, i) == '0' then (i + 1, 8)
    else if base == 0 then (i, 10)
    else (i, base)
  }

  function Parse(s: CString, base: int): Option<Parsed> {
    var i := SkipBlanks(s, 0);
    var (k, neg) := if At(s, i) == '+' then (i + 1, false) else if At(s, i) == '-' then (i + 1, true) else (i, false);
    var (first, b) := Prefix(s, k, base);
    match ParseDigits(s, first, b, 0)
    case None => None
    case Some((val, end)) => Some(Parsed(if neg then 0 - val as int else val, end))
  }

  method ReadDigits(s: CString, first: nat, base: int) returns (r: Option<(nat, nat)>)
    requires first <= |s|
    ensures r == ParseDigits(s, first, base, 0)
  {
    var i, val: nat := first, 0;
    while true
      invariant first <= i <= |s| && ParseDigits(s, first, base, 0) == ParseDigits(s, i, base, val)
      decreases |s| - i
    {
      var dig := DigitValue(At(s, i));
      if dig == NO_DIGIT || dig >= base {
        break;
      }
      i, val := i + 1, Append(val, base, dig);
      if val > LONG_MAX {
        return None;
      }
    }
    return Some((val, i));
  }

  /** The base prefix. */
  method TakePrefix(s: CString, i: nat, base0: int) returns (first: nat, base: int)
    requires i <= |s|
    ensures (first, base) == Prefix(s, i, base0)
  {
    first, base := i, base0;
    if (base == 0 || base == 16) && At(s, first) == '0' && At(s, first + 1) == 'x' {
      first, base := first + 2, 16;
    } else if base == 0 && At(s, first) == '0' {
      first, base := first + 1, 8;
    } else if base == 0 {
      base := 10;
    }
  }

  /** strtol; `None` is signed overflow, which C leaves undefined. */
  method Strtol(s: CString, base0: int) returns (r: Option<Parsed>)
    ensures r == Parse(s, base0)
  {
    var neg, i := false, 0;
    while At(s, i) == ' ' || At(s, i) == '\t'
      invariant 0 <= i <= |s| && SkipBlanks(s, 0) == SkipBlanks(s, i)
      decreases |s| - i
    {
      i := i + 1;
    }
    if At(s, i) == '+' {
      i := i + 1;
    } else if At(s, i) == '-' {
      i, neg := i + 1, true;
    }
    var first, base := TakePrefix(s, i, base0);
    var digits := ReadDigits(s, first, base);
    if digits.None? {
      return None;
    }
    var (val, end) := digits.value;
    return Some(Parsed(if neg then 0 - val as int else val, end));
  }

  // ----- the printer undone -----

  /** strtol can read it: digits are put together before the sign is. */
  predicate FitsLong(v: int) { 0 - LONG_MAX as int <= v <= LONG_MAX }

  /** A digit of the base that is neither a blank, a sign nor part of a prefix. */
  predicate PlainDigit(c: char, base: nat) {
    DigitValue(c) < base && (IsDigit(c) || 'a' <= c <= 'f')
  }

  predicate AllPlain(s: string, base: nat) {
    forall k :: 0 <= k < |s| ==> PlainDigit(s[k], base)
  }

  lemma {:induction false} DigitsArePlain(num: nat, base: nat)
    requires 2 <= base <= 16
    ensures AllPlain(Digits(num, base), base)
  {
    if num >= base {
      AppendLast(num, base);
      DigitsArePlain(num / base, base);
      PlainLast(Digits(num / base, base), num % base, base);
    } else {
      DigitChar(num);
    }
  }

  lemma PlainLast(s: string, d: nat, base: nat)
    requires AllPlain(s, base) && d < base <= 16
    ensures AllPlain(s + [DigitOf(d)], base)
  {
  }

  lemma DigitChar(d: nat)
    requires d < 16
    ensures DigitValue(DigitOf(d)) == d && PlainDigit(DigitOf(d), d + 1)
  {
  }

  /** `s` holds `t` from `i` on. */
  predicate Holds(s: string, i: nat, t: string) {
    i + |t| <= |s| && s[i..i + |t|] == t
  }

  lemma HoldsLast(s: string, i: nat, t: string, c: char)
    requires Holds(s, i, t + [c])
    ensures Holds(s, i, t) && s[i + |t|] == c
  {
    assert s[i..i + |t|] == s[i..i + |t| + 1][..|t|];
    assert s[i + |t|] == s[i..i + |t| + 1][|t|];
  }

  /** What is read up to `i` and the last digit make the number. */
  lemma LastDigitRead(s: CString, i: nat, num: nat, base: nat)
    requires 2 <= base <= 16 && i < |s| && s[i] == DigitOf(num % base) && num / base <= LONG_MAX
    ensures ParseDigits(s, i, base, num / base) == if num > LONG_MAX then None else ParseDigits(s, i + 1, base, num)
  {
    AppendLast(num, base);
    DigitChar(num % base);
  }

  lemma DigitsSplit(s: string, i: nat, num: nat, base: nat)
    requires 2 <= base <= 16 && num >= base && Holds(s, i, Digits(num, base))
    ensures var front := Digits(num / base, base);
            && Holds(s, i, front) && |Digits(num, base)| == |front| + 1
            && i + |front| < |s| && s[i + |front|] == DigitOf(num % base)
            && num / base < num
  {
    AppendLast(num, base);
    HoldsLast(s, i, Digits(num / base, base), DigitOf(num % base));
  }

  lemma OneDigitRead(s: CString, i: nat, num: nat, base: nat)
    requires 2 <= base <= 16 && num < base && Holds(s, i, [DigitOf(num)])
    ensures ParseDigits(s, i, base, 0) == ParseDigits(s, i + 1, base, num)
  {
    assert s[i] == s[i..i + 1][0];
    DigitChar(num);
    assert Append(0, base, num) == num;
  }

  /** Reading the digits of `num` gives `num`, unless it does not fit a `long`. */
  lemma {:induction false} DigitsRead(s: CString, i: nat, num: nat, base: nat)
    requires 2 <= base <= 16 && Holds(s, i, Digits(num, base))
    ensures ParseDigits(s, i, base, 0)
         == if num > LONG_MAX then None else ParseDigits(s, i + |Digits(num, base)|, base, num)
  {
    if num >= base {
      DigitsSplit(s, i, num, base);
      DigitsRead(s, i, num / base, base);
      if num / base <= LONG_MAX {
        LastDigitRead(s, i + |Digits(num / base, base)|, num, base);
      }
    } else {
      OneDigitRead(s, i, num, base);
    }
  }

  lemma {:induction false} ZerosRead(s: CString, i: nat, n: nat, base: nat)
    requires 2 <= base <= 36 && i + n <= |s| && forall k :: i <= k < i + n ==> s[k] == '0'
    ensures ParseDigits(s, i, base, 0) == ParseDigits(s, i + n, base, 0)
    decreases n
  {
    if n > 0 {
      ZerosRead(s, i + 1, n - 1, base);
    }
  }

  lemma {:induction false} BlanksSkipped(s: CString, i: nat, n: nat)
    requires i + n <= |s| && forall k :: i <= k < i + n ==> s[k] == ' '
    ensures SkipBlanks(s, i) == SkipBlanks(s, i + n)
    decreases n
  {
    if n > 0 {
      BlanksSkipped(s, i + 1, n - 1);
    }
  }

  lemma PaddedParts(num: nat, base: nat, width: int, padc: char)
    requires 2 <= base <= 16 && padc != '\0'
    ensures var n, s := Max(0, width - |Digits(num, base)|), Padded(num, base, width, padc);
            && '\0' !in s && |s| == n + |Digits(num, base)| && s[n..] == Digits(num, base)
            && (forall k :: 0 <= k < n ==> s[k] == padc)
            && (forall k :: n <= k < |s| ==> PlainDigit(s[k], base))
  {
    DigitsArePlain(num, base);
    var digits := Digits(num, base);
    var n, s := Max(0, width - |digits|), Padded(num, base, width, padc);
    assert s == Repeat(padc, n) + digits;
    forall k | 0 <= k < |s| ensures s[k] == if k < n then padc else digits[k - n] {
    }
  }

  /** Number text with `n` zeros or nothing in front, from `i` to the end. */
  lemma NumberReads(s: CString, i: nat, n: nat, num: nat, base: nat)
    requires 2 <= base <= 16 && i + n <= |s| && s[i + n..] == Digits(num, base)
    requires forall k :: i <= k < i + n ==> s[k] == '0'
    ensures ParseDigits(s, i, base, 0) == if num > LONG_MAX then None else Some((num, |s|))
  {
    ZerosRead(s, i, n, base);
    DigitsRead(s, i + n, num, base);
  }

  /** strtol undoes printnum: for every base, width and either padding, the text
      reads back as the number, to its end, exactly when the number fits a `long`. */
  lemma StrtolUndoesPrintnum(num: nat, base: nat, width: int, padc: char)
    requires 2 <= base <= 16 && padc in " 0"
    ensures '\0' !in Padded(num, base, width, padc)
    ensures var s := Padded(num, base, width, padc);
            Parse(s, base) == if num > LONG_MAX then None else Some(Parsed(num, |s|))
  {
    PaddedParts(num, base, width, padc);
    var n, s := Max(0, width - |Digits(num, base)|), Padded(num, base, width, padc);
    if padc == ' ' {
      BlanksSkipped(s, 0, n);
      PlainNumberReads(s, n, 0, num, base);
    } else {
      PlainNumberReads(s, 0, n, num, base);
    }
  }

  /** Text that is a number from `i` on, after blanks: no sign, no prefix. */
  lemma PlainNumberReads(s: CString, i: nat, n: nat, num: nat, base: nat)
    requires 2 <= base <= 16 && i + n <= |s| && s[i + n..] == Digits(num, base)
    requires forall k :: i <= k < i + n ==> s[k] == '0'
    requires forall k :: i <= k < |s| ==> PlainDigit(s[k], base)
    requires SkipBlanks(s, 0) == SkipBlanks(s, i)
    ensures Parse(s, base) == if num > LONG_MAX then None else Some(Parsed(num, |s|))
  {
    NumberReads(s, i, n, num, base);
    assert PlainDigit(s[i], base);
    assert SkipBlanks(s, i) == i;
    assert i + 1 < |s| ==> PlainDigit(s[i + 1], base);
    assert Prefix(s, i, base) == (i, base);
  }
}
