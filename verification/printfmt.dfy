/** Formatted printing: lib/printfmt.c, with strnlen of lib/string.c. */
module PrintFmt {
  import opened Wrappers
  import opened Bytes

  /** A C string without its terminator. */
  type CString = s: string | '\0' !in s

  /** The character at `i`; reading at the end gives NUL, and nothing lies past it. */
  function At(s: CString, i: nat): char
    requires i <= |s|
  {
    if i < |s| then s[i] else '\0'
  }

  const LONG_MAX: nat := 0x7fff_ffff
  const E_INVAL := 3
  const MAXERROR := 8

  // ----- numbers -----

  /** The entry `d` of "0123456789abcdef". */
  function DigitOf(d: nat): char
    requires d < 16
  {
    if d < 10 then '0' + d as char else 'a' + (d - 10) as char
  }

  lemma DigitTable(d: nat)
    requires d < 16
    ensures DigitOf(d) == "0123456789abcdef"[d]
  {
  }

  lemma SmallMod(num: nat, base: nat)
    requires 2 <= base
    ensures num < base ==> num % base == num
    ensures num >= base ==> num / base < num
    ensures num % base < base
  {
    var q, r := num / base, num % base;
    assert num == q * base + r && 0 <= r < base;
    if q >= 1 {
      Grows(q, base);
    } else {
      assert q * base <= 0;
    }
  }

  lemma Grows(q: nat, base: nat)
    requires q >= 1 && base >= 2
    ensures q * base >= base && q * base > q
  {
  }

  function Digits(num: nat, base: nat): (s: string)
    requires 2 <= base <= 16
    ensures |s| >= 1
  {
    if num >= base then Digits(num / base, base) + [DigitOf(num % base)] else [DigitOf(num)]
  }

  function Repeat(c: char, n: int): (s: string)
    ensures |s| == Max(0, n) && forall i :: 0 <= i < |s| ==> s[i] == c
  {
    if n <= 0 then "" else seq(n, _ => c)
  }

  /** Padding on the left, whatever the pad character. */
  function Padded(num: nat, base: nat, width: int, padc: char): string
    requires 2 <= base <= 16
  {
    var digits := Digits(num, base);
    Repeat(padc, width - |digits|) + digits
  }

  /** What %d prints for `v`. */
  function SignedText(v: int, width: int, padc: char): string {
    if v < 0 then "-" + Padded(-v, 10, width, padc) else Padded(v, 10, width, padc)
  }

  // ----- arguments -----

  /** What one `va_arg` slot holds: a 32-bit word, a 64-bit word, a string, NULL. */
  datatype Arg = Word32(w: nat) | Word64(w: nat) | Str(s: CString) | Null

  function Signed(w: nat, half: nat): int {
    if w < half then w else w - 2 * half
  }

  /** `None`: C reads an argument that is not there or not of this type. */
  function TakeUnsigned(args: seq<Arg>, a: nat, lflag: nat): Option<nat> {
    if a >= |args| then None
    else
      match args[a]
      case Word32(w) => if lflag < 2 && w < TWO32 then Some(w) else None
      case Word64(w) => if lflag >= 2 && w < TWO32 * TWO32 then Some(w) else None
      case _ => None
  }

  function TakeSigned(args: seq<Arg>, a: nat, lflag: nat): Option<int> {
    match TakeUnsigned(args, a, lflag)
    case None => None
    case Some(w) => Some(Signed(w, if lflag >= 2 then TWO32 * TWO32 / 2 else TWO32 / 2))
  }

  function TakeString(args: seq<Arg>, a: nat): Option<CString> {
    if a >= |args| then None
    else
      match args[a]
      case Str(s) => Some(s)
      case Null => Some("(null)")
      case _ => None
  }

  // ----- the parts of one escape -----

  datatype Flags = Flags(padc: char, width: int, precision: int, lflag: nat, alt: bool)

  const NO_FLAGS := Flags(' ', -1, -1, 0, false)

  function WithNumber(fl: Flags, n: int): Flags {
    if fl.width < 0 then fl.(width := n, precision := -1) else fl.(precision := n)
  }

  predicate IsDigit(c: char) { '0' <= c <= '9' }

  /** The decimal number starting at `i`, and where it ends. */
  function ScanNumber(fmt: CString, i: nat, acc: nat): (r: (nat, nat))
    requires i <= |fmt|
    ensures i <= r.1 <= |fmt| && !IsDigit(At(fmt, r.1))
    ensures forall k :: i <= k < r.1 ==> IsDigit(fmt[k])
    decreases |fmt| - i
  {
    if IsDigit(At(fmt, i)) then ScanNumber(fmt, i + 1, acc * 10 + (fmt[i] - '0') as nat) else (acc, i)
  }

  /** strnlen, whose size is a `size_t`. */
  function StrnLen(s: CString, size: int): int
    requires -0x8000_0000 <= size
  {
    Min(|s|, if size < 0 then size + TWO32 else size)
  }

  /** The characters of `s` a precision lets through. */
  function Shown(s: CString, precision: int): CString {
    if precision < 0 then s else s[..Min(|s|, precision)]
  }

  function Masked(c: char, alt: bool): char {
    if alt && (c < ' ' || c > '~') then '?' else c
  }

  function MaskedAll(s: string, alt: bool): string {
    seq(|s|, i requires 0 <= i < |s| => Masked(s[i], alt))
  }

  function StringText(s: CString, fl: Flags): string
    requires -0x8000_0000 <= fl.precision
  {
    var body := MaskedAll(Shown(s, fl.precision), fl.alt);
    if fl.width > 0 && fl.padc != '-' then Repeat(fl.padc, fl.width - StrnLen(s, fl.precision)) + body
    else body + Repeat(' ', fl.width - |body|)
  }

  function ErrorString(err: nat): Option<CString> {
    match err
    case 1 => Some("unspecified error")
    case 2 => Some("bad environment")
    case 3 => Some("invalid parameter")
    case 4 => Some("out of memory")
    case 5 => Some("out of environments")
    case 6 => Some("segmentation fault")
    case _ => None
  }

  /** Text of a conversion other than %e, and the next argument; `None` when C
      has no defined behaviour. */
  function Conversion(ch: char, fl: Flags, args: seq<Arg>, a: nat): Option<(string, nat)>
    requires -0x8000_0000 <= fl.precision
  {
    match ch
    case 'c' =>
      (match TakeUnsigned(args, a, 0)
       case None => None
       case Some(w) => Some(([(w % 256) as char], a + 1)))
    case 's' =>
      (match TakeString(args, a)
       case None => None
       case Some(s) => Some((StringText(s, fl), a + 1)))
    case 'd' =>
      (match TakeSigned(args, a, fl.lflag)
       case None => None
       case Some(v) =>
         if v == -0x8000_0000_0000_0000 then None  // -num overflows
         else Some((SignedText(v, fl.width, fl.padc), a + 1)))
    case 'u' =>
      (match TakeUnsigned(args, a, fl.lflag)
       case None => None
       case Some(w) => Some((Padded(w, 10, fl.width, fl.padc), a + 1)))
    case 'o' => Some(("XXX", a))
    case 'p' =>
      (match TakeUnsigned(args, a, 0)
       case None => None
       case Some(w) => Some(("0x" + Padded(w, 16, fl.width, fl.padc), a + 1)))
    case 'x' =>
      (match TakeUnsigned(args, a, fl.lflag)
       case None => None
       case Some(w) => Some((Padded(w, 16, fl.width, fl.padc), a + 1)))
    case '%' => Some(("%", a))
    case _ => None
  }

  // ----- the whole format -----

  function NextPercent(fmt: CString, i: nat): (r: nat)
    requires i <= |fmt|
    ensures i <= r <= |fmt| && (r < |fmt| ==> fmt[r] == '%')
    ensures forall k :: i <= k < r ==> fmt[k] != '%'
    decreases |fmt| - i
  {
    if i == |fmt| || fmt[i] == '%' then i else NextPercent(fmt, i + 1)
  }

  /** Whether %e can occur, in which case the formatter may call itself. */
  ghost predicate MayNest(fmt: CString) {
    exists i, k :: 0 <= i < k < |fmt| && fmt[i] == '%' && fmt[k] == 'e'
  }

  lemma ErrorFormatsDoNotNest()
    ensures !MayNest("error %d") && !MayNest("%s")
  {
  }

  function Glue(head: string, tail: Option<string>): Option<string> {
    if tail.None? then None else Some(head + tail.value)
  }

  lemma GlueTwice(s: string, t: string, tail: Option<string>)
    ensures Glue(s, Glue(t, tail)) == Glue(s + t, tail)
  {
    if tail.Some? { assert s + (t + tail.value) == s + t + tail.value; }
  }

  lemma GlueNothing(tail: Option<string>)
    ensures Glue("", tail) == tail
  {
    if tail.Some? { assert "" + tail.value == tail.value; }
  }

  /** What %e prints for the code `err`. */
  function ErrorText(err: nat): Option<string>
    decreases false, |"error %d"| + 1, 0, 0
  {
    ErrorFormatsDoNotNest();
    match ErrorString(err)
    case None => Literal("error %d", 0, [Word32(err)], 0)
    case Some(msg) => Literal("%s", 0, [Str(msg)], 0)
  }

  /** The text from `i` on, outside an escape; argument `a` is the next one. */
  function Literal(fmt: CString, i: nat, args: seq<Arg>, a: nat): Option<string>
    requires i <= |fmt|
    decreases MayNest(fmt), |fmt| - NextPercent(fmt, i), 0, |fmt| - i
  {
    if i == |fmt| then Some("")
    else if fmt[i] != '%' then Glue([fmt[i]], Literal(fmt, i + 1, args, a))
    else Escape(fmt, i + 1, i + 1, args, a, NO_FLAGS)
  }

  /** The text from `i` on, inside the escape whose '%' is just before `start`.
      An unknown escape prints its '%' and goes on, as ordinary text, at `start`. */
  function Escape(fmt: CString, start: nat, i: nat, args: seq<Arg>, a: nat, fl: Flags): Option<string>
    requires 1 <= start <= i <= |fmt| && fmt[start - 1] == '%' && forall k :: start <= k < i ==> fmt[k] != '%'
    requires -0x8000_0000 <= fl.precision
    decreases MayNest(fmt), |fmt| - NextPercent(fmt, i), 1, |fmt| - i
  {
    var ch := At(fmt, i);
    if ch == '-' then Escape(fmt, start, i + 1, args, a, fl.(padc := '-'))
    else if ch == '0' then Escape(fmt, start, i + 1, args, a, fl.(padc := '0'))
    else if '1' <= ch <= '9' then
      var (n, j) := ScanNumber(fmt, i, 0);
      Escape(fmt, start, j, args, a, WithNumber(fl, n))
    else if ch == '*' then
      match TakeSigned(args, a, 0)
      case None => None
      case Some(n) => Escape(fmt, start, i + 1, args, a + 1, WithNumber(fl, n))
    else if ch == '.' then Escape(fmt, start, i + 1, args, a, fl.(width := Max(0, fl.width)))
    else if ch == '#' then Escape(fmt, start, i + 1, args, a, fl.(alt := true))
    else if ch == 'l' then Escape(fmt, start, i + 1, args, a, fl.(lflag := fl.lflag + 1))
    else if ch == 'e' then
      assert MayNest(fmt);
      match TakeSigned(args, a, 0)
      case None => None
      case Some(v) =>
        if v == -0x8000_0000 then None  // -err overflows
        else
          match ErrorText(if v < 0 then -v else v)
          case None => None
          case Some(text) => Glue(text, Literal(fmt, i + 1, args, a + 1))
    else if ch in "csduopx%" then
      match Conversion(ch, fl, args, a)
      case None => None
      case Some((text, a')) => Glue(text, Literal(fmt, i + 1, args, a'))
    else Glue("%", Literal(fmt, start, args, a))
  }

  function Format(fmt: CString, args: seq<Arg>): Option<string> {
    Literal(fmt, 0, args, 0)
  }
}
