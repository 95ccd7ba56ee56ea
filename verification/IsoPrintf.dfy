/**
 * The integer conversions of section 7.21.6.1 of ISO C11, stated without the
 * engine, and exactly which directives of api/keystone/vsnprintf.c follow them.
 */
module IsoPrintf {
  import opened Basics
  import opened Numerals
  import opened IntegerField
  import opened AlternateForm
  import opened Directives
  import opened PrintfText
  import opened PrintfTheorems
  import opened PrintfArguments

  // ----- the standard -----

  const LOWER := "0123456789abcdef"
  const UPPER := "0123456789ABCDEF"

  /** The numeral of a value, most significant digit first and as long as it needs to be. */
  function IsoDigits(value: nat, base: nat, upper: bool): (s: string)
    requires 2 <= base <= 16
    ensures s != []
    decreases value
  {
    DivMod(value, base);
    (if value < base then "" else QuotientLess(value, base); IsoDigits(Quot(value, base), base, upper)) +
    [(if upper then UPPER else LOWER)[Rem(value, base)]]
  }

  lemma QuotientLess(value: nat, base: nat)
    requires 2 <= base <= value
    ensures 0 < Quot(value, base) < value
  {
    DivMod(value, base);
    var q := Quot(value, base);
    assert base * q >= 2 * q;
  }

  /** Paragraph 8: hexadecimal for x and X, octal for o, and decimal for d, i and u. */
  function IsoBase(c: char): (b: nat)
    ensures 2 <= b <= 16
  {
    if c == 'x' || c == 'X' then 16 else if c == 'o' then 8 else 10
  }

  /** The number of values of the type that a length modifier names. */
  function Range(size: Size): (n: nat)
    ensures n > 0
  {
    match size
    case CharSize => 0x100
    case ShortSize => 0x1_0000
    case IntSize => 0x1_0000_0000
    case LongSize => 0x1_0000_0000_0000_0000
    case LongLongSize => 0x1_0000_0000_0000_0000
  }

  /** The number between -range/2 and range/2 that a word stands for. */
  function IsoInt(word: nat, range: nat): int
    requires range > 0
  {
    (word + range / 2) % range - range / 2
  }

  /** Paragraph 7: the argument converted to that type, signed for d and i. */
  function IsoValue(c: char, size: Size, s: Slot): int {
    if c == 'd' || c == 'i' then IsoInt(s.word, Range(size)) else s.word % Range(size)
  }

  /** Paragraph 5: a negative precision argument counts as if the precision were omitted. */
  function IsoPrecision(d: Directive, va: seq<Slot>): Option<nat> {
    match d.precision
    case Absent => if d.flags.precision then Some(0) else None
    case Number(n) => Some(n)
    case Star =>
      var p := IsoInt(At(va, if d.width == Star then 1 else 0).word, UINT_RANGE);
      if p < 0 then None else Some(p)
  }

  /** Paragraph 5: the width, below zero if it is an argument that asks for '-'. */
  function IsoWidth(d: Directive, va: seq<Slot>): int {
    match d.width
    case Absent => 0
    case Number(n) => n
    case Star => IsoInt(At(va, 0).word, UINT_RANGE)
  }

  /** Paragraph 6, '+' and space: the sign of d and i. */
  function IsoSign(c: char, f: Flags, v: int): string {
    if c != 'd' && c != 'i' then ""
    else if v < 0 then "-" else if f.plus then "+" else if f.space then " " else ""
  }

  /** Paragraph 8: the digits, at least as many as the precision, and none for zero with precision zero. */
  function IsoNumeral(c: char, prec: Option<nat>, v: int): string {
    var digits := if v == 0 && prec == Some(0) then ""
                  else IsoDigits(if v < 0 then -v else v, IsoBase(c), c == 'X');
    Repeat('0', (if prec == None then 1 else prec.value) - |digits|) + digits
  }

  /** Paragraph 6, '#': a nonzero %x has its prefix, and the first digit of %o is a zero. */
  function IsoPrefix(c: char, f: Flags, v: int): string {
    if !f.hash || v == 0 then "" else if c == 'x' then "0x" else if c == 'X' then "0X" else ""
  }

  function IsoForm(c: char, f: Flags, prec: Option<nat>, v: int): string {
    var numeral := IsoNumeral(c, prec, v);
    if f.hash && c == 'o' && (numeral == "" || numeral[0] != '0') then "0" + numeral else numeral
  }

  /** Paragraph 6, '-' and '0': the padding, where '0' counts only without a precision. */
  function IsoInteger(c: char, f: Flags, width: nat, prec: Option<nat>, v: int): string {
    IsoLayout(IsoSign(c, f, v) + IsoPrefix(c, f, v), IsoForm(c, f, prec, v), width, IsoFlags(f, prec))
  }

  function IsoFlags(f: Flags, prec: Option<nat>): Flags { f.(zeropad := f.zeropad && prec == None) }

  /** What the standard prints for an integer directive: the argument converted is the one after its stars. */
  function IsoText(d: Directive, va: seq<Slot>): string
    requires d.rest != []
  {
    var c, w := d.rest[0], IsoWidth(d, va);
    IsoInteger(c, d.flags.(left := d.flags.left || w < 0), if w < 0 then -w else w, IsoPrecision(d, va),
               IsoValue(c, d.size, At(va, Stars(d))))
  }

  // ----- the directives that follow it -----

  /** %hhd or %hhi of a byte with its top bit set: the engine's char is unsigned. */
  predicate ReadsUnsigned(c: char, size: Size, s: Slot) {
    IsSigned(c) && size == CharSize && s.word % 0x100 >= 0x80
  }

  /** How many digits the engine shows before padding. */
  function ShownDigits(c: char, f: Flags, v: int): nat {
    if v == 0 && f.precision then 0 else |IsoDigits(Magnitude(v), IsoBase(c), c == 'X')|
  }

  /** A precision taken for zero does no harm: something is printed, and no zero padding is lost. */
  predicate Harmless(f: Flags, width: nat, v: int, length: nat) {
    v != 0 && (f.zeropad && !f.left ==> width <= length)
  }

  /** '#' shows: it has no effect on decimals and, in the engine, on zero. */
  predicate Altered(c: char, f: Flags, v: int) { f.hash && Base(c) != 10 && v != 0 }

  /** The resolved conversions that print what the standard asks; `p` is the precision as the engine takes it. */
  predicate FollowsResolved(c: char, f: Flags, width: nat, prec: Option<nat>, p: nat, v: int) {
    var n, sign := ShownDigits(c, f, v), IsoSign(c, f, v);
    if Altered(c, f, v) then
      && (f.precision && prec == None ==> Harmless(f, width, v, n + MarkSize(Base(c))))
      && AlternateConforms(n, Base(c), p, width, IntegerFlags(c, f))
    else
      && !(c == 'o' && f.hash && v == 0 && prec == Some(0))
      && (f.precision && prec == None ==> Harmless(f, width, v, n + |sign|))
      && Conforms(n, sign, p, width, IntegerFlags(c, f))
  }

  /** The integer directives that print what the standard asks. */
  predicate Follows(d: Directive, va: seq<Slot>)
    requires d.rest != []
  {
    var (f, w, va1) := Width(d, va);
    var c, s := d.rest[0], At(va, Stars(d));
    && !ReadsUnsigned(c, d.size, s)
    && FollowsResolved(c, f, w, IsoPrecision(d, va), Precision(d, va1).0, IsoValue(c, d.size, s))
  }

  // ----- the scratch digits are the standard's -----

  lemma {:induction false} DigitsAreIso(value: nat, base: nat, upper: bool, room: nat)
    requires 2 <= base <= 16 && room >= 1 && value < Power(base, room)
    ensures Reversed(Digits(value, base, upper, room)) == IsoDigits(value, base, upper)
    decreases room
  {
    hide Power, Reversed, Digits, DigitChar;
    DivMod(value, base);
    DigitsUnfold(value, base, upper, room);
    var q, c := Quot(value, base), DigitChar(Rem(value, base), upper);
    DigitIsIso(Rem(value, base), upper);
    QuotientZero(value, base);
    if q != 0 {
      QuotientBound(value, base, room);
      DigitsAreIso(q, base, upper, room - 1);
      ReversedConcat([c], Digits(q, base, upper, room - 1));
    } else {
      assert [c] + [] == [c] && "" + [c] == [c];
    }
    ReversedSign([c]);
  }

  /** The digit characters of the engine are those of the standard. */
  lemma DigitIsIso(d: nat, upper: bool)
    requires d < 16
    ensures DigitChar(d, upper) == (if upper then UPPER else LOWER)[d]
  {
  }

  lemma BaseIsIso(c: char)
    requires IsStandard(c)
    ensures Base(c) == IsoBase(c)
  {
  }

  lemma IntIsIso(word: nat, range: nat)
    requires range > 0 && range % 2 == 0
    ensures SignedOf(word, range) == IsoInt(word, range)
  {
    var q, r, h := word / range, word % range, range / 2;
    assert word + h == range * q + r + h;
    if r < h { ModUnique(word + h, range, q, r + h); } else { ModUnique(word + h, range, q + 1, r - h); }
  }

  lemma QuotientZero(value: nat, base: nat)
    requires base > 0
    ensures Quot(value, base) == 0 <==> value < base
  {
    DivMod(value, base);
    var q := Quot(value, base);
    assert q >= 1 ==> base * q >= base;
    assert q == 0 ==> base * q == 0;
  }

  lemma ValueIsIso(c: char, size: Size, s: Slot)
    ensures if ReadsUnsigned(c, size, s) then ValueOf(c, size, s) > 0 > IsoValue(c, size, s)
            else ValueOf(c, size, s) == IsoValue(c, size, s)
    ensures !IsSigned(c) ==> IsoValue(c, size, s) >= 0
  {
    hide SignedOf, IsoInt;
    IntIsIso(s.word, Range(size));
    Byte(s.word);
  }

  lemma Byte(word: nat)
    ensures SignedOf(word, 0x100) == if word % 0x100 < 0x80 then word % 0x100 else word % 0x100 - 0x100
  {
  }

  lemma ScratchIsIso(c: char, value: nat, f: Flags)
    requires IsStandard(c) && value < ULONG_RANGE && f.upper == (c == 'X')
    ensures var ds := ScratchDigits(value, Base(c), f);
            if value == 0 && f.precision then ds == []
            else |ds| > 0 && Reversed(ds) == IsoDigits(value, IsoBase(c), c == 'X')
  {
    hide Power, Reversed, Digits, IsoDigits;
    BaseIsIso(c);
    ScratchFits(c, value, f);
    if !(value == 0 && f.precision) { DigitsAreIso(value, Base(c), f.upper, BUFFER_SIZE); }
  }

  lemma SignIsIso(c: char, f: Flags, v: int)
    requires !IsSigned(c) ==> v >= 0
    ensures IsoSign(c, f, v) == Sign(v < 0, IntegerFlags(c, f))
  {
  }

  /** The digits in the scratch buffer belong to the value: none for zero with a precision. */
  predicate DigitsOf(c: char, f: Flags, v: int, ds: string) {
    if v == 0 && f.precision then ds == []
    else ds != [] && Reversed(ds) == IsoDigits(Magnitude(v), IsoBase(c), c == 'X')
  }

  lemma NumeralIsIso(c: char, f: Flags, prec: Option<nat>, p: nat, v: int, ds: string)
    requires DigitsOf(c, f, v, ds) && p == (if prec == None then 0 else prec.value)
    requires f.precision && v == 0 <==> prec.Some? && v == 0
    ensures IsoNumeral(c, prec, v) == Repeat('0', p - |ds|) + Reversed(ds)
  {
    hide IsoDigits, Reversed, Repeat, IsoNumeral, IsoBase, Magnitude;
    if v == 0 && f.precision {
      assert prec == Some(p) && ds == "";
      ZeroNumeral(c, p);
    } else {
      ShownNumeral(c, prec, p, v, Reversed(ds));
    }
  }

  lemma ShownNumeral(c: char, prec: Option<nat>, p: nat, v: int, digits: string)
    requires (v != 0 || prec != Some(0)) && digits == IsoDigits(Magnitude(v), IsoBase(c), c == 'X')
    requires p == if prec == None then 0 else prec.value
    ensures IsoNumeral(c, prec, v) == Repeat('0', p - |digits|) + digits
  {
    hide IsoDigits, Repeat, IsoNumeral, IsoBase, Magnitude;
    PaddedNumeral(c, prec, v);
    SameShortage(prec, p, |digits|);
  }

  lemma SameShortage(prec: Option<nat>, p: nat, d: nat)
    requires d >= 1 && p == if prec == None then 0 else prec.value
    ensures Repeat('0', (if prec == None then 1 else prec.value) - d) == Repeat('0', p - d)
  {
  }

  lemma PaddedNumeral(c: char, prec: Option<nat>, v: int)
    requires v != 0 || prec != Some(0)
    ensures var digits := IsoDigits(Magnitude(v), IsoBase(c), c == 'X');
            IsoNumeral(c, prec, v) == Repeat('0', (if prec == None then 1 else prec.value) - |digits|) + digits
  {
    hide IsoDigits, Repeat, IsoBase;
    assert Magnitude(v) == if v < 0 then -v else v;
  }

  lemma ZeroNumeral(c: char, p: nat)
    ensures IsoNumeral(c, Some(p), 0) == Repeat('0', p) + Reversed("")
  {
    assert IsoDigits(0, IsoBase(c), c == 'X') == "0";
    assert p > 0 ==> Repeat('0', p - 1) + "0" == Repeat('0', p);
  }

  /** The field without '#'. */
  function IsoPlain(c: char, f: Flags, width: nat, prec: Option<nat>, v: int): string {
    IsoLayout(IsoSign(c, f, v), IsoNumeral(c, prec, v), width, IsoFlags(f, prec))
  }

  /** Where the engine resolves the precision as the standard does, both ask for the same field. */
  lemma FieldIsIso(c: char, f: Flags, width: nat, prec: Option<nat>, p: nat, v: int, ds: string)
    requires DigitsOf(c, f, v, ds) && p == (if prec == None then 0 else prec.value) && (f.precision <==> prec.Some?)
    requires !IsSigned(c) ==> v >= 0
    ensures IsoPlain(c, f, width, prec, v) == IsoField(ds, IsoSign(c, f, v), p, width, IntegerFlags(c, f))
  {
    hide IsoNumeral, IsoSign, Reversed, DigitsOf, Repeat, Base;
    NumeralIsIso(c, f, prec, p, v, ds);
  }

  // ----- a precision argument below zero -----

  /** Taken for zero, it changes nothing if a digit is shown and no zero padding is wanted. */
  lemma OmittedIsZero(c: char, f: Flags, width: nat, v: int, ds: string)
    requires DigitsOf(c, f, v, ds) && f.precision && Harmless(f, width, v, |ds| + |IsoSign(c, f, v)|)
    requires !IsSigned(c) ==> v >= 0
    ensures IsoPlain(c, f, width, None, v) == IsoField(ds, IsoSign(c, f, v), 0, width, IntegerFlags(c, f))
  {
    hide IsoNumeral, IsoSign, Reversed, DigitsOf, Base;
    NumeralIsIso(c, f, None, 0, v, ds);
    var sign, numeral := IsoSign(c, f, v), IsoNumeral(c, None, v);
    assert |numeral| == |ds|;
    assert "" + numeral == numeral && "" + (sign + numeral) == sign + numeral;
  }

  /** Where zero padding is wanted the standard has a zero that the engine leaves blank. */
  lemma BlankForZero(c: char, f: Flags, width: nat, v: int, ds: string)
    requires DigitsOf(c, f, v, ds) && f.precision && v != 0 && f.zeropad && !f.left
    requires width > |ds| + |IsoSign(c, f, v)| && (!IsSigned(c) ==> v >= 0)
    ensures IsoPlain(c, f, width, None, v) != IsoField(ds, IsoSign(c, f, v), 0, width, IntegerFlags(c, f))
  {
    hide IsoNumeral, IsoSign, Reversed, DigitsOf, Base;
    NumeralIsIso(c, f, None, 0, v, ds);
    SignIsNoZero(c, f, v);
    var sign, numeral := IsoSign(c, f, v), IsoNumeral(c, None, v);
    var iso := IsoPlain(c, f, width, None, v);
    var gap := width - |sign + numeral|;
    assert iso == sign + (Repeat('0', gap) + numeral) && iso[|sign|] == '0';
    var field := IsoField(ds, sign, 0, width, IntegerFlags(c, f));
    assert field == Repeat(' ', gap) + (sign + (Repeat('0', 0 - |ds|) + Reversed(ds)));
    assert if |sign| < gap then field[|sign|] == ' ' else field[|sign|] == sign[0];
  }

  lemma SignIsNoZero(c: char, f: Flags, v: int)
    ensures var sign := IsoSign(c, f, v); |sign| <= 1 && (sign != "" ==> sign[0] != '0')
    ensures v < 0 && IsSigned(c) ==> IsoSign(c, f, v) == "-"
  {
  }

  /** Zero shows no digit, where the standard shows one. */
  lemma ZeroVanishes(c: char, f: Flags, width: nat)
    requires f.precision
    ensures IsoPlain(c, f, width, None, 0) != Field([], false, Base(c), 0, width, IntegerFlags(c, f).(hash := false))
  {
    hide IsoPlain, Field;
    ZeroShown(c, f, width);
    ZeroHidden(Base(c), width, IntegerFlags(c, f).(hash := false));
  }

  lemma ZeroShown(c: char, f: Flags, width: nat)
    ensures '0' in IsoPlain(c, f, width, None, 0)
  {
    assert IsoDigits(0, IsoBase(c), c == 'X') == "0";
    assert '0' in IsoNumeral(c, None, 0);
  }

  lemma ZeroHidden(base: nat, width: nat, g: Flags)
    requires !g.hash && !g.zeropad
    ensures '0' !in Field([], false, base, 0, width, g)
  {
    hide Reversed;
    var sign := Sign(false, g);
    assert Repeat('0', 0) == "" && Body([], false, base, 0, width, g) == sign;
    ReversedSign(sign);
  }

  // ----- a byte read as unsigned -----

  predicate NoMinus(s: string) { forall k :: 0 <= k < |s| ==> s[k] != '-' }

  lemma MinusShown(c: char, f: Flags, width: nat, prec: Option<nat>, v: int)
    requires IsSigned(c) && v < 0
    ensures '-' in IsoPlain(c, f, width, prec, v)
  {
    hide IsoNumeral;
    SignIsNoZero(c, f, v);
    assert '-' in IsoSign(c, f, v);
  }

  lemma {:induction false} DigitsNoMinus(value: nat, base: nat, upper: bool, room: nat)
    requires 2 <= base <= 16 && room >= 1
    ensures NoMinus(Digits(value, base, upper, room))
    decreases room
  {
    DivMod(value, base);
    if Quot(value, base) != 0 && room > 1 { DigitsNoMinus(Quot(value, base), base, upper, room - 1); }
  }

  lemma BodyNoMinus(ds: string, base: nat, prec: nat, width: nat, g: Flags)
    requires |ds| <= BUFFER_SIZE && NoMinus(ds) && !g.hash
    ensures NoMinus(Body(ds, false, base, prec, width, g))
  {
    hide ZeroPadded;
    ZeroPaddedIs(ds, prec, width, g);
  }

  lemma FieldNoMinus(ds: string, base: nat, prec: nat, width: nat, g: Flags)
    requires |ds| <= BUFFER_SIZE && NoMinus(ds) && !g.hash
    ensures NoMinus(Field(ds, false, base, prec, width, g))
  {
    hide Reversed, Body;
    BodyNoMinus(ds, base, prec, width, g);
    var body := Body(ds, false, base, prec, width, g);
    forall k | 0 <= k < |body| ensures Reversed(body)[k] != '-' { ReversedAt(body, k); }
  }

  /** What scanning guarantees: a precision is only given after a period. */
  predicate Scanned(d: Directive) { d.rest != [] && (d.precision != Absent ==> d.flags.precision) }

  lemma ParseIsScanned(s: string)
    requires Parse(s).rest != []
    ensures Scanned(Parse(s))
  {
    hide TakeFlags, TakeAmount, TakeLength, NO_FLAGS;
    var (f1, s1) := TakeFlags(s, NO_FLAGS);
    var (w, s2) := TakeAmount(s1);
    var (f2, p, s3) := TakePrecision(s2, f1);
  }

  /** An integer conversion with its width, precision and argument resolved, without '#'. */
  lemma PlainConforms(c: char, f: Flags, width: nat, prec: Option<nat>, p: nat, size: Size, s: Slot)
    requires IsStandard(c) && !IntegerFlags(c, f).hash && (prec.Some? ==> f.precision)
    requires p == (if prec == None then 0 else prec.value) && !ReadsUnsigned(c, size, s)
    ensures var v := IsoValue(c, size, s);
            var n, sign := ShownDigits(c, f, v), IsoSign(c, f, v);
            IntegerText(c, f, width, p, size, s) == IsoPlain(c, f, width, prec, v) <==>
            && (f.precision && prec == None ==> Harmless(f, width, v, n + |sign|))
            && Conforms(n, sign, p, width, IntegerFlags(c, f))
  {
    hide IsoPlain, IsoField, IsoValue, Conforms, ScratchDigits, SignedValue, UnsignedValue, ReadsUnsigned, Reversed;
    hide IsoDigits, Base, IsoSign, Sign, Field;
    ValueIsIso(c, size, s);
    var g, v := IntegerFlags(c, f), IsoValue(c, size, s);
    ValueInRange(c, size, s);
    var ds := ScratchDigits(Magnitude(v), Base(c), g);
    ScratchIsIso(c, Magnitude(v), g);
    SignIsIso(c, f, v);
    LayoutConforms(c, f, width, p, size, s);
    if f.precision <==> prec.Some? {
      FieldIsIso(c, f, width, prec, p, v, ds);
    } else if v == 0 {
      ZeroVanishes(c, f, width);
    } else if f.zeropad && !f.left && width > |ds| + |IsoSign(c, f, v)| {
      BlankForZero(c, f, width, v, ds);
      ScratchFits(c, Magnitude(v), g);
      SignIsNoZero(c, f, v);
      RoomyConforms(|ds|, IsoSign(c, f, v), width, g);
    } else {
      OmittedIsZero(c, f, width, v, ds);
    }
  }

  lemma UnsignedDiffers(c: char, f: Flags, width: nat, prec: Option<nat>, p: nat, size: Size, s: Slot)
    requires IsStandard(c) && !IntegerFlags(c, f).hash && ReadsUnsigned(c, size, s)
    ensures IntegerText(c, f, width, p, size, s) != IsoPlain(c, f, width, prec, IsoValue(c, size, s))
  {
    hide IsoPlain, Digits, Field;
    ValueIsIso(c, size, s);
    MinusShown(c, f, width, prec, IsoValue(c, size, s));
    var g, v := IntegerFlags(c, f), SignedValue(size, s);
    DigitsNoMinus(v, Base(c), g.upper, BUFFER_SIZE);
    FieldNoMinus(ScratchDigits(v, Base(c), g), Base(c), p, width, g);
    assert g.(hash := g.hash && v != 0) == g;
  }

  lemma RoomyConforms(d: nat, sign: string, width: nat, g: Flags)
    requires d <= 22 && |sign| <= 1 && width > d + |sign| && !g.zeropad && !g.left
    ensures Conforms(d, sign, 0, width, g)
  {
  }

  // ----- the alternate form -----

  /** Where '#' has no effect, except that the standard forces a zero octal to show. */
  lemma PlainIsIso(c: char, f: Flags, width: nat, prec: Option<nat>, v: int)
    requires !Altered(c, f, v) && !(c == 'o' && f.hash && v == 0 && prec == Some(0))
    ensures IsoInteger(c, f, width, prec, v) == IsoPlain(c, f, width, prec, v)
    ensures IsoPlain(c, f.(hash := false), width, prec, v) == IsoPlain(c, f, width, prec, v)
  {
    hide IsoNumeral, IsoSign, IsoLayout, IsoFlags, Base;
    NoLead(IsoSign(c, f, v));
    HashBases();
    if c == 'o' && f.hash { ZeroFirst(c, prec); }
    SameSign(c, f, v);
    SameLayout(IsoSign(c, f, v), IsoNumeral(c, prec, v), width, f, prec);
  }

  lemma HashBases()
    ensures Base('o') == 8 && Base('x') == 16 && Base('X') == 16
  {
  }

  lemma SameSign(c: char, f: Flags, v: int)
    ensures IsoSign(c, f.(hash := false), v) == IsoSign(c, f, v)
  {
  }

  lemma SameLayout(lead: string, numeral: string, width: nat, f: Flags, prec: Option<nat>)
    ensures IsoLayout(lead, numeral, width, IsoFlags(f.(hash := false), prec)) ==
            IsoLayout(lead, numeral, width, IsoFlags(f, prec))
  {
    hide Repeat;
  }

  lemma ZeroFirst(c: char, prec: Option<nat>)
    requires prec != Some(0)
    ensures IsoNumeral(c, prec, 0) != "" && IsoNumeral(c, prec, 0)[0] == '0'
  {
    assert IsoDigits(0, IsoBase(c), c == 'X') == "0";
  }

  /** %#.0o of zero: the standard shows a zero, the engine nothing. */
  lemma ForcedZero(f: Flags, width: nat)
    requires f.precision && f.hash
    ensures IsoInteger('o', f, width, Some(0), 0) != Field([], false, 8, 0, width, IntegerFlags('o', f).(hash := false))
  {
    hide Field;
    assert IsoForm('o', f, Some(0), 0) == "0";
    assert '0' in IsoInteger('o', f, width, Some(0), 0);
    ZeroHidden(8, width, IntegerFlags('o', f).(hash := false));
  }

  /** The standard's field with '#' from the digits in the scratch buffer. */
  lemma AlteredIsIso(c: char, f: Flags, width: nat, prec: Option<nat>, p: nat, v: int, ds: string)
    requires DigitsOf(c, f, v, ds) && p == (if prec == None then 0 else prec.value) && v > 0
    requires c != 'd' && c != 'i' && c != 'u' && IsStandard(c) && f.hash && ds != [] && ds[|ds| - 1] != '0'
    ensures IsoInteger(c, f, width, prec, v) ==
            AlternateField(ds, Base(c), p, width, IntegerFlags(c, f).(zeropad := f.zeropad && prec == None))
  {
    hide IsoNumeral, Reversed, Repeat, Mark, IsoLayout, IsoDigits;
    NumeralIsIso(c, f, prec, p, v, ds);
    PrefixIsMark(c, f, v);
    if c == 'o' { FirstOctal(ds, p); }
    AlteredLayout(IsoSign(c, f, v) + IsoPrefix(c, f, v), IsoForm(c, f, prec, v), width, c, f, prec);
  }

  lemma PrefixIsMark(c: char, f: Flags, v: int)
    requires v > 0 && f.hash && (c == 'x' || c == 'X' || c == 'o')
    ensures IsoSign(c, f, v) + IsoPrefix(c, f, v) == if c == 'o' then "" else Mark(16, c == 'X')
  {
    NoLead(Mark(16, c == 'X'));
    NoLead("");
  }

  lemma AlteredLayout(lead: string, numeral: string, width: nat, c: char, f: Flags, prec: Option<nat>)
    ensures IsoLayout(lead, numeral, width, IsoFlags(f, prec)) ==
            IsoLayout(lead, numeral, width, IntegerFlags(c, f).(zeropad := f.zeropad && prec == None))
  {
    hide Repeat;
  }

  lemma FirstOctal(ds: string, p: nat)
    requires ds != [] && ds[|ds| - 1] != '0'
    ensures var numeral := Repeat('0', p - |ds|) + Reversed(ds);
            numeral != "" && (numeral[0] == '0' <==> p > |ds|)
  {
    hide Reversed, Repeat;
    ReversedAt(ds, 0);
    if p > |ds| {
      ZerosHead(p - |ds|);
      HeadOf(Repeat('0', p - |ds|), Reversed(ds));
    } else {
      NoZeros(p - |ds|);
      NoLead(Reversed(ds));
    }
  }

  lemma ZerosHead(n: int)
    requires n > 0
    ensures Repeat('0', n)[0] == '0'
  {
  }

  lemma HeadOf(a: string, b: string)
    requires a != ""
    ensures (a + b)[0] == a[0]
  {
  }

  /** A precision taken for zero costs the alternate form its zero padding, if any is wanted. */
  lemma OmittedAltered(ds: string, base: nat, width: nat, g: Flags, zeropad: bool)
    requires Markable(ds, base, 0, g) && g.precision
    ensures Field(ds, false, base, 0, width, g) == AlternateField(ds, base, 0, width, g.(zeropad := zeropad)) <==>
            (zeropad && !g.left ==> width <= |ds| + MarkSize(base))
  {
    hide Field, AlternateField, Reversed, Mark;
    var z := g.(zeropad := zeropad);
    AlternateExactly(ds, base, 0, width, g);
    AlternateIs(ds, base, 0, width, g);
    AlternateIs(ds, base, 0, width, z);
    MarkLength(base, g.upper);
    var a, b := MarkedZeros(|ds|, base, 0, width, g), MarkedZeros(|ds|, base, 0, width, z);
    assert Marked(ds, base, b, z) == Marked(ds, base, b, g);
    if b <= 0 { MarkedSame(ds, base, a, b, g); }
  }

  lemma SameFlags(c: char, f: Flags, prec: Option<nat>)
    ensures IntegerFlags(c, f).precision == f.precision && IntegerFlags(c, f).left == f.left
    ensures f.precision ==> !IntegerFlags(c, f).zeropad
    ensures (f.precision <==> prec.Some?) ==>
              IntegerFlags(c, f).(zeropad := f.zeropad && prec == None) == IntegerFlags(c, f)
    ensures prec == None ==>
              IntegerFlags(c, f).(zeropad := f.zeropad && prec == None) == IntegerFlags(c, f).(zeropad := f.zeropad)
  {
  }

  lemma AlteredDigits(c: char, f: Flags, width: nat, p: nat, size: Size, s: Slot) returns (ds: string)
    requires IsStandard(c) && (!f.precision ==> p == 0) && Altered(c, f, IsoValue(c, size, s))
    ensures IsoValue(c, size, s) > 0 && c != 'd' && c != 'i' && c != 'u'
    ensures DigitsOf(c, f, IsoValue(c, size, s), ds) && Markable(ds, Base(c), p, IntegerFlags(c, f))
    ensures IntegerText(c, f, width, p, size, s) == Field(ds, false, Base(c), p, width, IntegerFlags(c, f))
    ensures ds != [] && ds[|ds| - 1] != '0'
  {
    hide IsoValue, ScratchDigits, UnsignedValue, SignedValue, Reversed, IsoDigits, Field, Horner, Base, IntegerFlags;
    hide Sign, Power;
    ValueIsIso(c, size, s);
    ValueInRange(c, size, s);
    var g, v := IntegerFlags(c, f), IsoValue(c, size, s);
    AlteredFlags(c, f, v);
    ds := ScratchDigits(v, Base(c), g);
    ScratchIsIso(c, v, g);
    ScratchDenotes(c, v, g);
    ScratchFits(c, v, g);
    assert g.(hash := g.hash && v != 0) == g;
  }

  lemma AlteredFlags(c: char, f: Flags, v: int)
    requires IsStandard(c) && Altered(c, f, v)
    ensures !IsSigned(c) && c != 'u' && (Base(c) == 8 || Base(c) == 16)
    ensures var g := IntegerFlags(c, f);
            g.hash && Sign(false, g) == "" && (g.zeropad ==> !g.precision) && g.precision == f.precision &&
            g.upper == (c == 'X')
  {
  }

  lemma AlteredFollows(c: char, f: Flags, width: nat, prec: Option<nat>, p: nat, v: int, ds: string)
    requires Altered(c, f, v) && DigitsOf(c, f, v, ds)
    ensures FollowsResolved(c, f, width, prec, p, v) <==>
            && (f.precision && prec == None ==> Harmless(f, width, v, |ds| + MarkSize(Base(c))))
            && AlternateConforms(|ds|, Base(c), p, width, IntegerFlags(c, f))
  {
    hide IsoDigits, Reversed, AlternateConforms, IntegerFlags, Conforms;
  }

  lemma AlteredConforms(c: char, f: Flags, width: nat, prec: Option<nat>, p: nat, size: Size, s: Slot)
    requires IsStandard(c) && (prec.Some? ==> f.precision) && p == (if prec == None then 0 else prec.value)
    requires Altered(c, f, IsoValue(c, size, s))
    ensures var v := IsoValue(c, size, s);
            IntegerText(c, f, width, p, size, s) == IsoInteger(c, f, width, prec, v) <==>
            FollowsResolved(c, f, width, prec, p, v)
  {
    hide IsoInteger, IsoValue, IntegerText, FollowsResolved, Field, AlternateField, AlternateConforms;
    hide DigitsOf, Markable, Base, IntegerFlags;
    var v := IsoValue(c, size, s);
    var ds := AlteredDigits(c, f, width, p, size, s);
    var base, g := Base(c), IntegerFlags(c, f);
    AlteredIsIso(c, f, width, prec, p, v, ds);
    AlteredFollows(c, f, width, prec, p, v, ds);
    SameFlags(c, f, prec);
    if f.precision <==> prec.Some? {
      AlternateExactly(ds, base, p, width, g);
    } else {
      OmittedAltered(ds, base, width, g, f.zeropad);
      OmittedConforms(|ds|, base, width, g);
    }
  }

  lemma OmittedConforms(d: nat, base: nat, width: nat, g: Flags)
    requires g.precision && !g.zeropad
    ensures AlternateConforms(d, base, 0, width, g)
  {
  }

  // ----- the theorem -----

  /** '#' is idle for decimals and, in the engine, for zero. */
  lemma HashIdle(c: char, f: Flags, width: nat, p: nat, size: Size, s: Slot)
    requires !Altered(c, f, IsoValue(c, size, s)) && !ReadsUnsigned(c, size, s)
    ensures IntegerText(c, f, width, p, size, s) == IntegerText(c, f.(hash := false), width, p, size, s)
  {
    hide Field, ScratchDigits, IsoValue, SignedValue, UnsignedValue;
    ValueIsIso(c, size, s);
    var g, v := IntegerFlags(c, f), Magnitude(ValueOf(c, size, s));
    assert g.(hash := g.hash && v != 0) == IntegerFlags(c, f.(hash := false));
    ScratchSame(v, Base(c), g);
  }

  lemma ScratchSame(value: nat, base: nat, f: Flags)
    requires 2 <= base <= 16
    ensures ScratchDigits(value, base, f.(hash := false)) == ScratchDigits(value, base, f)
  {
  }

  lemma FollowsIdle(c: char, f: Flags, width: nat, prec: Option<nat>, p: nat, v: int)
    requires !Altered(c, f, v) && !(c == 'o' && f.hash && v == 0 && prec == Some(0))
    ensures FollowsResolved(c, f, width, prec, p, v) == FollowsResolved(c, f.(hash := false), width, prec, p, v)
  {
    hide IsoDigits;
  }

  lemma ForcedZeroText(f: Flags, width: nat, p: nat, size: Size, s: Slot)
    requires f.precision && IsoValue('o', size, s) == 0
    ensures IntegerText('o', f, width, p, size, s) ==
            Field([], false, 8, p, width, IntegerFlags('o', f).(hash := false))
  {
    hide Field, IsoValue, UnsignedValue;
    ValueIsIso('o', size, s);
  }

  lemma ResolvedConforms(c: char, f: Flags, width: nat, prec: Option<nat>, p: nat, size: Size, s: Slot)
    requires IsStandard(c) && (prec.Some? ==> f.precision) && p == (if prec == None then 0 else prec.value)
    ensures var v := IsoValue(c, size, s);
            IntegerText(c, f, width, p, size, s) == IsoInteger(c, f, width, prec, v) <==>
            !ReadsUnsigned(c, size, s) && FollowsResolved(c, f, width, prec, p, v)
  {
    hide IsoInteger, IsoPlain, IsoValue, IntegerText, FollowsResolved, Field, IntegerFlags;
    var v := IsoValue(c, size, s);
    SignedIsDecimal(c);
    if Altered(c, f, v) {
      AlteredConforms(c, f, width, prec, p, size, s);
    } else if c == 'o' && f.hash && v == 0 && prec == Some(0) {
      ForcedZero(f, width);
      ForcedZeroText(f, width, p, size, s);
      ForcedFails(f, width);
    } else {
      PlainIsIso(c, f, width, prec, v);
      if ReadsUnsigned(c, size, s) {
        UnsignedDiffers(c, f, width, prec, p, size, s);
      } else {
        IdleConforms(c, f, width, prec, p, size, s);
      }
    }
  }

  lemma IdleConforms(c: char, f: Flags, width: nat, prec: Option<nat>, p: nat, size: Size, s: Slot)
    requires IsStandard(c) && (prec.Some? ==> f.precision) && p == (if prec == None then 0 else prec.value)
    requires var v := IsoValue(c, size, s); !Altered(c, f, v) && !(c == 'o' && f.hash && v == 0 && prec == Some(0))
    requires !ReadsUnsigned(c, size, s)
    ensures var v := IsoValue(c, size, s);
            IntegerText(c, f, width, p, size, s) == IsoPlain(c, f, width, prec, v) <==>
            FollowsResolved(c, f, width, prec, p, v)
  {
    hide IsoPlain, IsoValue, Conforms, IntegerText, ShownDigits, FollowsResolved, ReadsUnsigned, IsoSign;
    var v, f0 := IsoValue(c, size, s), f.(hash := false);
    PlainIsIso(c, f, width, prec, v);
    HashIdle(c, f, width, p, size, s);
    NoHash(c, f0);
    PlainConforms(c, f0, width, prec, p, size, s);
    PlainFollows(c, f0, width, prec, p, v);
    FollowsIdle(c, f, width, prec, p, v);
  }

  lemma NoHash(c: char, f: Flags)
    ensures !f.hash || Base(c) == 10 ==> !IntegerFlags(c, f).hash
  {
  }

  lemma SignedIsDecimal(c: char)
    ensures IsSigned(c) ==> Base(c) == 10
    ensures forall f: Flags :: IsSigned(c) ==> !IntegerFlags(c, f).hash
  {
  }

  lemma ForcedFails(f: Flags, width: nat)
    requires f.hash
    ensures !FollowsResolved('o', f, width, Some(0), 0, 0)
  {
    hide IsoDigits, Conforms;
  }

  lemma PlainFollows(c: char, f: Flags, width: nat, prec: Option<nat>, p: nat, v: int)
    requires !f.hash
    ensures FollowsResolved(c, f, width, prec, p, v) <==>
            var n, sign := ShownDigits(c, f, v), IsoSign(c, f, v);
            && (f.precision && prec == None ==> Harmless(f, width, v, n + |sign|))
            && Conforms(n, sign, p, width, IntegerFlags(c, f))
  {
    hide ShownDigits, IsoSign, Conforms;
  }

  /**
   * A scanned integer directive prints what section 7.21.6.1 asks for its arguments if and only if
   * it follows the standard, a condition on the directive and its arguments alone.
   */
  lemma IntegerConforms(d: Directive, va: seq<Slot>)
    requires Scanned(d) && IsStandard(d.rest[0])
    ensures Expanded(d, va).0 == IsoText(d, va) <==> Follows(d, va)
  {
    hide IsoInteger, IntegerText, FollowsResolved, IsoValue, ReadsUnsigned, SignedOf, IsoInt, At, Head, Tail, Drop;
    var (f, w, va1) := Width(d, va);
    var p := Precision(d, va1).0;
    DirectiveTakes(d, va);
    WidthIsIso(d, va);
    PrecisionIsIso(d, va);
    ResolvedConforms(d.rest[0], f, w, IsoPrecision(d, va), p, d.size, At(va, Stars(d)));
  }

  lemma WidthIsIso(d: Directive, va: seq<Slot>)
    ensures var (f, w, va1) := Width(d, va);
            var i := IsoWidth(d, va);
            f == d.flags.(left := d.flags.left || i < 0) && w == if i < 0 then -i else i
  {
    hide SignedOf, IsoInt, At, Head, Tail, Drop;
    HeadAndTail(va);
    IntIsIso(At(va, 0).word, UINT_RANGE);
  }

  lemma PrecisionIsIso(d: Directive, va: seq<Slot>)
    ensures var p, i := Precision(d, Width(d, va).2).0, IsoPrecision(d, va);
            p == if i == None then 0 else i.value
  {
    hide SignedOf, IsoInt, At, Head, Tail, Drop, Width;
    var w := if d.width == Star then 1 else 0;
    StarsTake(d, va);
    HeadAndTail(Drop(va, w));
    DropTwice(va, w, 0);
    IntIsIso(At(va, w).word, UINT_RANGE);
  }

  /** A format that begins with an integer directive prints what the standard asks for it, then the rest. */
  lemma FormatConforms(s: string, va: seq<Slot>)
    requires Supported("%" + s) && Parse(s).rest != [] && IsStandard(Parse(s).rest[0])
    ensures var d := Parse(s);
            Supported(d.rest[1..]) &&
            (Render("%" + s, va) == IsoText(d, va) + Render(d.rest[1..], Expanded(d, va).1) <==> Follows(d, va))
  {
    hide Parse, Expanded, IsoText, Follows;
    var d, fmt := Parse(s), "%" + s;
    ParseIsScanned(s);
    IntegerConforms(d, va);
    assert fmt[0] == '%' && fmt[1..] == s;
    SameFront(Expanded(d, va).0, IsoText(d, va), Render(d.rest[1..], Expanded(d, va).1));
  }

  lemma SameFront(a: string, b: string, rest: string)
    ensures a + rest == b + rest <==> a == b
  {
    if a + rest == b + rest {
      assert |a| == |b|;
      assert a == (a + rest)[..|a|] && b == (b + rest)[..|a|];
    }
  }
}
