/**
 * The text that a format and its arguments produce: _vsnprintf of
 * api/keystone/vsnprintf.c as a function, without the floating-point
 * conversions, on a 64-bit RISC-V target (int 32 bits, long, long long and
 * pointers 64, char unsigned).
 */
module PrintfText {
  import opened Basics
  import opened Numerals
  import opened IntegerField
  import opened Directives

  const ULONG_RANGE := 0x1_0000_0000_0000_0000

  /** A variadic argument as va_arg finds it: a 64-bit word and, for a pointer, the string it points to. */
  datatype Slot = Slot(word: nat, text: string)

  function Head(va: seq<Slot>): Slot { if va == [] then Slot(0, "") else va[0] }

  function Tail(va: seq<Slot>): seq<Slot> { if va == [] then [] else va[1..] }

  /** Two's complement reading of the low bits of a word. */
  function SignedOf(word: nat, range: nat): (v: int)
    requires range > 0
    ensures v == word % range || v == word % range - range
    ensures range % 2 == 0 ==> -(range / 2) <= v < range / 2
  {
    var r := word % range;
    if r < range / 2 then r else r - range
  }

  function AsInt(s: Slot): int { SignedOf(s.word, UINT_RANGE) }

  // ----- width and precision -----

  /** The width: a negative argument means left justification. */
  function Width(d: Directive, va: seq<Slot>): (Flags, nat, seq<Slot>) {
    match d.width
    case Absent => (d.flags, 0, va)
    case Number(n) => (d.flags, n, va)
    case Star =>
      var w := AsInt(Head(va));
      if w < 0 then (d.flags.(left := true), -w, Tail(va)) else (d.flags, w, Tail(va))
  }

  /** The precision: a negative argument counts as zero. */
  function Precision(d: Directive, va: seq<Slot>): (nat, seq<Slot>) {
    match d.precision
    case Absent => (0, va)
    case Number(n) => (n, va)
    case Star => (if AsInt(Head(va)) > 0 then AsInt(Head(va)) else 0, Tail(va))
  }

  // ----- integers -----

  predicate IsInteger(c: char) { c == 'd' || c == 'i' || c == 'u' || c == 'x' || c == 'X' || c == 'o' || c == 'b' }

  predicate IsSigned(c: char) { c == 'd' || c == 'i' }

  function Base(c: char): (b: nat)
    ensures 2 <= b <= 16
  {
    if c == 'x' || c == 'X' then 16 else if c == 'o' then 8 else if c == 'b' then 2 else 10
  }

  /** No '#' for decimals, no sign flags for unsigned conversions, no '0' with a precision. */
  function IntegerFlags(c: char, f: Flags): Flags {
    f.(hash := f.hash && Base(c) != 10, upper := c == 'X', plus := f.plus && IsSigned(c),
       space := f.space && IsSigned(c), zeropad := f.zeropad && !f.precision)
  }

  function SignedValue(size: Size, s: Slot): int {
    match size
    case LongLongSize => SignedOf(s.word, ULONG_RANGE)
    case LongSize => SignedOf(s.word, ULONG_RANGE)
    case CharSize => s.word % 0x100
    case ShortSize => SignedOf(s.word, 0x1_0000)
    case IntSize => AsInt(s)
  }

  function UnsignedValue(size: Size, s: Slot): nat {
    match size
    case LongLongSize => s.word % ULONG_RANGE
    case LongSize => s.word % ULONG_RANGE
    case CharSize => s.word % 0x100
    case ShortSize => s.word % 0x1_0000
    case IntSize => s.word % UINT_RANGE
  }

  /** The digits in the scratch buffer: none for zero with an explicit precision. */
  function ScratchDigits(value: nat, base: nat, f: Flags): (ds: string)
    requires 2 <= base <= 16
    ensures |ds| <= BUFFER_SIZE
  {
    if !f.precision || value != 0 then Digits(value, base, f.upper, BUFFER_SIZE) else []
  }

  /** _ntoa_long and _ntoa_long_long: no '#' for zero. */
  function Ntoa(value: nat, negative: bool, base: nat, prec: nat, width: nat, f: Flags): string
    requires 2 <= base <= 16
  {
    Field(ScratchDigits(value, base, f), negative, base, prec, width, f.(hash := f.hash && value != 0))
  }

  function Magnitude(v: int): nat { if v > 0 then v else 0 - v }

  function IntegerText(c: char, f: Flags, width: nat, prec: nat, size: Size, s: Slot): string {
    if IsSigned(c) then
      var v := SignedValue(size, s);
      Ntoa(Magnitude(v), v < 0, Base(c), prec, width, IntegerFlags(c, f))
    else Ntoa(UnsignedValue(size, s), false, Base(c), prec, width, IntegerFlags(c, f))
  }

  // ----- characters, strings, pointers -----

  /** Spaces up to the width on one side; `l` is the length that the padding loops count from. */
  function Justified(text: string, l: nat, width: nat, f: Flags): string {
    if f.left then text + Repeat(' ', width - l) else Repeat(' ', width - l) + text
  }

  function CharText(f: Flags, width: nat, s: Slot): string {
    Justified([(s.word % 0x100) as char], 1, width, f)
  }

  /** At most the precision's number of characters; the padding counts the length as an unsigned int. */
  function StringText(f: Flags, width: nat, prec: nat, s: Slot): string {
    var l := |s.text| % UINT_RANGE;
    if f.precision then Justified(s.text[..Min(|s.text|, prec)], Min(l, prec), width, f)
    else Justified(s.text, l, width, f)
  }

  function PointerText(f: Flags, prec: nat, s: Slot): string {
    Ntoa(s.word % ULONG_RANGE, false, 16, prec, 16, f.(zeropad := true, upper := true))
  }

  predicate TakesArgument(c: char) { IsInteger(c) || c == 'c' || c == 's' || c == 'p' }

  /** The text of one conversion. */
  function Converted(c: char, f: Flags, width: nat, prec: nat, size: Size, s: Slot): string {
    if IsInteger(c) then IntegerText(c, f, width, prec, size, s)
    else if c == 'c' then CharText(f, width, s)
    else if c == 's' then StringText(f, width, prec, s)
    else if c == 'p' then PointerText(f, prec, s)
    else [c]
  }

  // ----- the whole format -----

  /** One directive: its text, the format after it and the arguments left. */
  function Expanded(d: Directive, va: seq<Slot>): (string, seq<Slot>)
    requires d.rest != []
  {
    var (f, w, va1) := Width(d, va);
    var (p, va2) := Precision(d, va1);
    (Converted(d.rest[0], f, w, p, d.size, Head(va2)), if TakesArgument(d.rest[0]) then Tail(va2) else va2)
  }

  function Render(fmt: string, va: seq<Slot>): string
    requires Supported(fmt)
    decreases |fmt|
  {
    if fmt == [] then []
    else if fmt[0] != '%' then [fmt[0]] + Render(fmt[1..], va)
    else
      var d := Parse(fmt[1..]);
      var (text, left) := Expanded(d, va);
      text + Render(d.rest[1..], left)
  }
}
