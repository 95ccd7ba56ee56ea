/**
 * The directive grammar of _vsnprintf in api/keystone/vsnprintf.c:
 * %[flags][width][.precision][length]conversion, and the scanner for it.
 */
module Directives {
  import opened Basics
  import opened Numerals
  import opened IntegerField

  /** A width or precision: absent, spelled out, or taken from the arguments. */
  datatype Amount = Absent | Number(n: nat) | Star

  /** FLAGS_CHAR, FLAGS_SHORT, FLAGS_LONG and FLAGS_LONG_LONG, in the order in which they are tested. */
  datatype Size = IntSize | CharSize | ShortSize | LongSize | LongLongSize

  /** A scanned directive and what follows it; the conversion character is the first of `rest`. */
  datatype Directive = Directive(flags: Flags, width: Amount, precision: Amount, size: Size, rest: string)

  predicate IsFlag(c: char) { c == '0' || c == '-' || c == '+' || c == ' ' || c == '#' }

  function WithFlag(f: Flags, c: char): Flags {
    f.(zeropad := f.zeropad || c == '0', left := f.left || c == '-', plus := f.plus || c == '+',
       space := f.space || c == ' ', hash := f.hash || c == '#')
  }

  function TakeFlags(s: string, f: Flags): (r: (Flags, string))
    ensures |r.1| <= |s|
  {
    if s != [] && IsFlag(s[0]) then TakeFlags(s[1..], WithFlag(f, s[0])) else (f, s)
  }

  function TakeAmount(s: string): (r: (Amount, string))
    ensures |r.1| <= |s|
  {
    if s != [] && IsDigit(s[0]) then (Number(Read(s)), s[DigitRun(s)..])
    else if s != [] && s[0] == '*' then (Star, s[1..])
    else (Absent, s)
  }

  function TakePrecision(s: string, f: Flags): (r: (Flags, Amount, string))
    ensures |r.2| <= |s|
  {
    if s != [] && s[0] == '.' then
      var (p, rest) := TakeAmount(s[1..]);
      (f.(precision := true), p, rest)
    else (f, Absent, s)
  }

  /** On this platform ptrdiff_t, intmax_t and size_t are as wide as long. */
  function TakeLength(s: string): (r: (Size, string))
    ensures |r.1| <= |s|
  {
    if s == [] then (IntSize, s)
    else if s[0] == 'l' then
      if |s| > 1 && s[1] == 'l' then (LongLongSize, s[2..]) else (LongSize, s[1..])
    else if s[0] == 'h' then
      if |s| > 1 && s[1] == 'h' then (CharSize, s[2..]) else (ShortSize, s[1..])
    else if s[0] == 't' || s[0] == 'j' || s[0] == 'z' then (LongSize, s[1..])
    else (IntSize, s)
  }

  /** The directive at the front of `s`, which follows a percent sign. */
  function Parse(s: string): (d: Directive)
    ensures |d.rest| <= |s|
  {
    hide TakeFlags, TakeAmount, TakePrecision, TakeLength;
    var (f1, s1) := TakeFlags(s, NO_FLAGS);
    var (w, s2) := TakeAmount(s1);
    var (f2, p, s3) := TakePrecision(s2, f1);
    var (size, s4) := TakeLength(s3);
    Directive(f2, w, p, size, s4)
  }

  /** Every directive has a conversion character, and none is a floating-point one. */
  predicate Supported(fmt: string)
    decreases |fmt|
  {
    if fmt == [] then true
    else if fmt[0] != '%' then Supported(fmt[1..])
    else
      var rest := Parse(fmt[1..]).rest;
      rest != [] && rest[0] != 'f' && rest[0] != 'F' && Supported(rest[1..])
  }

  // ----- the round trip of a spelled directive -----

  function FlagSet(fs: string, f: Flags): Flags { if fs == [] then f else FlagSet(fs[1..], WithFlag(f, fs[0])) }

  predicate Has(f: Flags, c: char) {
    if c == '0' then f.zeropad
    else if c == '-' then f.left
    else if c == '+' then f.plus
    else if c == ' ' then f.space
    else c == '#' && f.hash
  }

  /** A flag is set exactly if it is spelled somewhere: neither order nor repetition matters. */
  lemma {:induction false} FlagSetHas(fs: string, f: Flags, c: char)
    requires IsFlag(c)
    ensures Has(FlagSet(fs, f), c) <==> Has(f, c) || c in fs
  {
    hide WithFlag, Has, IsFlag;
    if fs != [] {
      WithFlagHas(f, fs[0], c);
      FlagSetHas(fs[1..], WithFlag(f, fs[0]), c);
      assert c in fs <==> c == fs[0] || c in fs[1..];
    }
  }

  lemma {:induction false} FlagSetKeeps(fs: string, f: Flags)
    ensures FlagSet(fs, f).precision == f.precision
  {
    hide WithFlag;
    if fs != [] {
      WithFlagHas(f, fs[0], '0');
      FlagSetKeeps(fs[1..], WithFlag(f, fs[0]));
    }
  }

  lemma WithFlagHas(f: Flags, d: char, c: char)
    requires IsFlag(c)
    ensures Has(WithFlag(f, d), c) <==> Has(f, c) || c == d
    ensures WithFlag(f, d).precision == f.precision
  {
  }

  lemma {:induction false} FlagsScanned(fs: string, tail: string, f: Flags)
    requires (forall i :: 0 <= i < |fs| ==> IsFlag(fs[i])) && (tail == [] || !IsFlag(tail[0]))
    ensures TakeFlags(fs + tail, f) == (FlagSet(fs, f), tail)
  {
    if fs == [] {
      assert fs + tail == tail;
    } else {
      assert (fs + tail)[0] == fs[0] && (fs + tail)[1..] == fs[1..] + tail;
      FlagsScanned(fs[1..], tail, WithFlag(f, fs[0]));
    }
  }

  /** A number as the engine's own %u prints it. */
  function Printed(n: nat): (s: string)
    ensures s != []
  {
    Reversed(Digits(n, 10, false, BUFFER_SIZE))
  }

  lemma {:induction false} DecimalDigits(n: nat, room: nat, i: nat)
    requires room >= 1 && i < |Digits(n, 10, false, room)|
    ensures IsDigit(Digits(n, 10, false, room)[i])
    decreases room
  {
    if i > 0 { DecimalDigits(Quot(n, 10), room - 1, i - 1); }
  }

  lemma PrintedIsDecimal(n: nat, i: nat)
    requires i < |Printed(n)|
    ensures IsDigit(Printed(n)[i])
  {
    hide Reversed, Digits;
    var ds := Digits(n, 10, false, BUFFER_SIZE);
    ReversedAt(ds, i);
    DecimalDigits(n, BUFFER_SIZE, |ds| - 1 - i);
  }

  lemma PrintedDenotes(n: nat)
    requires n < UINT_RANGE
    ensures Numeral(Printed(n), 10) == n && (n != 0 ==> Printed(n)[0] != '0')
  {
    hide Reversed, Numeral, Horner, Digits, Power;
    var ds := Digits(n, 10, false, BUFFER_SIZE);
    ReversedNumeral(ds, 10);
    TenTo32(n);
    DigitsDenote(n, 10, false, BUFFER_SIZE);
    TopDigit(n, 10, false, BUFFER_SIZE);
    ReversedAt(ds, 0);
  }

  /** _atoi reads back what %u prints; a nonzero number does not begin with the flag '0'. */
  lemma PrintedReadsBack(n: nat, tail: string)
    requires n < UINT_RANGE && (tail == [] || !IsDigit(tail[0]))
    ensures DigitRun(Printed(n) + tail) == |Printed(n)| && Read(Printed(n) + tail) == n
    ensures IsDigit(Printed(n)[0]) && (n != 0 ==> !IsFlag(Printed(n)[0]))
  {
    hide Printed, Numeral;
    var s := Printed(n);
    forall i | 0 <= i < |s| ensures IsDigit(s[i]) { PrintedIsDecimal(n, i); }
    DigitRunUnique(s + tail, |s|);
    assert (s + tail)[..|s|] == s;
    PrintedDenotes(n);
  }

  lemma TenTo32(n: nat)
    requires n < 0x1_0000_0000_0000_0000
    ensures n < Power(10, BUFFER_SIZE)
  {
    hide Power;
    PowersOfTen();
    PowerSum(10, 20, 12);
    assert Power(10, 12) >= 1;
  }

  datatype Length = Plain | H | HH | L | LL | T | J | Z {
    function Spelled(): string {
      match this
      case Plain => "" case H => "h" case HH => "hh" case L => "l" case LL => "ll"
      case T => "t" case J => "j" case Z => "z"
    }

    function Size(): Size {
      match this
      case Plain => IntSize
      case H => ShortSize
      case HH => CharSize
      case LL => LongLongSize
      case _ => LongSize
    }
  }

  /** A character that can only be a conversion. */
  predicate IsConversion(c: char) {
    !IsFlag(c) && !IsDigit(c) && c != '*' && c != '.' && c != 'l' && c != 'h' && c != 't' && c != 'j' && c != 'z'
  }

  function SpelledWidth(w: Amount): string {
    match w case Absent => "" case Number(n) => Printed(n) case Star => "*"
  }

  function SpelledPrecision(p: Amount): string {
    match p case Absent => "" case Number(n) => "." + Printed(n) case Star => ".*"
  }

  predicate Writable(a: Amount) { a.Number? ==> a.n < UINT_RANGE }

  lemma LengthScanned(len: Length, tail: string)
    requires tail != [] && IsConversion(tail[0])
    ensures TakeLength(len.Spelled() + tail) == (len.Size(), tail)
  {
    var s := len.Spelled() + tail;
    assert len == Plain ==> s == tail;
    assert |len.Spelled()| == 1 ==> s[1..] == tail;
    assert |len.Spelled()| == 2 ==> s[2..] == tail;
  }

  lemma AmountScanned(a: Amount, tail: string)
    requires Writable(a) && tail != [] && !IsDigit(tail[0]) && tail[0] != '*'
    ensures TakeAmount(SpelledWidth(a) + tail) == (a, tail)
  {
    hide Printed, Read;
    match a
    case Absent => assert SpelledWidth(a) + tail == tail;
    case Star => assert (SpelledWidth(a) + tail)[1..] == tail;
    case Number(n) =>
      PrintedReadsBack(n, tail);
      assert (Printed(n) + tail)[|Printed(n)|..] == tail;
  }

  lemma PrecisionScanned(p: Amount, tail: string, f: Flags)
    requires Writable(p) && tail != [] && !IsDigit(tail[0]) && tail[0] != '*' && tail[0] != '.'
    ensures TakePrecision(SpelledPrecision(p) + tail, f) ==
            (if p.Absent? then f else f.(precision := true), p, tail)
  {
    hide Printed, TakeAmount;
    var s := SpelledPrecision(p) + tail;
    if p.Absent? {
      assert s == tail;
    } else {
      AmountScanned(p, tail);
      assert s[1..] == SpelledWidth(p) + tail;
    }
  }

  /** What stands at the front of a spelled suffix, so that the scanner before it stops there. */
  lemma Fronts(p: Amount, len: Length, tail: string)
    requires tail != [] && IsConversion(tail[0])
    ensures var l := len.Spelled() + tail;
            l != [] && !IsDigit(l[0]) && l[0] != '*' && l[0] != '.' && !IsFlag(l[0]) &&
            var r := SpelledPrecision(p) + l; r != [] && !IsDigit(r[0]) && r[0] != '*' && !IsFlag(r[0])
  {
  }

  /** Any spelling of a directive scans back to exactly its flags, width, precision, length and conversion. */
  lemma ParseRoundTrip(fs: string, w: Amount, p: Amount, len: Length, tail: string)
    requires (forall i :: 0 <= i < |fs| ==> IsFlag(fs[i])) && Writable(w) && Writable(p) && w != Number(0)
    requires tail != [] && IsConversion(tail[0])
    ensures Parse(fs + (SpelledWidth(w) + (SpelledPrecision(p) + (len.Spelled() + tail)))) ==
            Directive(FlagSet(fs, NO_FLAGS).(precision := !p.Absent?), w, p, len.Size(), tail)
  {
    hide TakeFlags, TakeAmount, TakePrecision, TakeLength, Printed, SpelledWidth, SpelledPrecision, FlagSet;
    var l := len.Spelled() + tail;
    var r := SpelledPrecision(p) + l;
    var f := FlagSet(fs, NO_FLAGS);
    Fronts(p, len, tail);
    WidthFront(w, r);
    FlagsScanned(fs, SpelledWidth(w) + r, NO_FLAGS);
    AmountScanned(w, r);
    FlagSetKeeps(fs, NO_FLAGS);
    PrecisionScanned(p, l, f);
    LengthScanned(len, tail);
  }

  lemma WidthFront(w: Amount, r: string)
    requires Writable(w) && w != Number(0) && r != [] && !IsFlag(r[0]) && !IsDigit(r[0])
    ensures SpelledWidth(w) + r != [] && !IsFlag((SpelledWidth(w) + r)[0])
  {
    hide Printed;
    if w.Number? { PrintedReadsBack(w.n, r); }
  }
}
