/**
 * What the conversions of the printf engine mean: conformance of the integer
 * conversions to ISO C11, sign and magnitude of signed ones, and reading back
 * what was printed.
 */
module PrintfTheorems {
  import opened Basics
  import opened Numerals
  import opened IntegerField
  import opened Directives
  import opened PrintfText

  /** The standard integer conversions; %b is this engine's own. */
  predicate IsStandard(c: char) { c == 'd' || c == 'i' || c == 'u' || c == 'x' || c == 'X' || c == 'o' }

  lemma ScratchFits(c: char, value: nat, f: Flags)
    requires IsStandard(c) && value < ULONG_RANGE
    ensures value < Power(Base(c), 22) && value < Power(Base(c), BUFFER_SIZE)
    ensures |ScratchDigits(value, Base(c), f)| <= 22
  {
    hide Power, Digits;
    ScratchSuffices();
    PowerSum(10, 20, 2);
    PowerSum(16, 16, 6);
    PowerSum(Base(c), 22, 10);
    assert Power(10, 2) >= 1 && Power(16, 6) >= 1 && Power(Base(c), 10) >= 1;
    Grows(Power(10, 20), Power(10, 2));
    Grows(Power(16, 16), Power(16, 6));
    Grows(Power(Base(c), 22), Power(Base(c), 10));
    DigitsLength(value, Base(c), f.upper, BUFFER_SIZE, 22);
  }

  lemma Grows(x: nat, y: nat)
    requires y >= 1
    ensures x * y >= x
  {
  }

  /** The scratch digits of a standard conversion denote its value, without a leading zero. */
  lemma ScratchDenotes(c: char, value: nat, f: Flags)
    requires IsStandard(c) && value < ULONG_RANGE
    ensures var ds := ScratchDigits(value, Base(c), f);
            Horner(ds, Base(c)) == value &&
            (value != 0 ==> ds != [] && ds[|ds| - 1] != '0' && ds[|ds| - 1] != ' ')
  {
    hide Power, Digits;
    ScratchFits(c, value, f);
    DigitsDenote(value, Base(c), f.upper, BUFFER_SIZE);
    TopDigit(value, Base(c), f.upper, BUFFER_SIZE);
  }

  /** The sign of a conversion's value: only %d and %i are ever negative. */
  function ValueOf(c: char, size: Size, s: Slot): int {
    if IsSigned(c) then SignedValue(size, s) else UnsignedValue(size, s)
  }

  lemma ValueInRange(c: char, size: Size, s: Slot)
    ensures Magnitude(ValueOf(c, size, s)) < ULONG_RANGE
  {
  }

  /** Conversions of %b keep the low 32 bits; all others of up to 64 bits keep the whole value. */
  lemma BinaryKeepsLowBits(value: nat, f: Flags)
    ensures Horner(ScratchDigits(value, 2, f), 2) == value % UINT_RANGE
  {
    hide Power, Digits;
    PowersOfTwo();
    DigitsDenote(value, 2, f.upper, BUFFER_SIZE);
  }

  /**
   * Without '#', the value that the engine reads is laid out as section 7.21.6.1 asks exactly if it
   * conforms: a condition on the flags, the precision, the width, the number of digits and the sign.
   */
  lemma LayoutConforms(c: char, f: Flags, width: nat, prec: nat, size: Size, s: Slot)
    requires IsStandard(c) && !IntegerFlags(c, f).hash && (!f.precision ==> prec == 0)
    ensures var g, v := IntegerFlags(c, f), ValueOf(c, size, s);
            var ds, sign := ScratchDigits(Magnitude(v), Base(c), g), Sign(v < 0, g);
            IntegerText(c, f, width, prec, size, s) == IsoField(ds, sign, prec, width, g) <==>
            Conforms(|ds|, sign, prec, width, g)
  {
    hide Field, IsoField, Conforms, Sign, Base, Horner, ScratchDigits, SignedValue, UnsignedValue;
    var g, v := IntegerFlags(c, f), ValueOf(c, size, s);
    ValueInRange(c, size, s);
    var ds := ScratchDigits(Magnitude(v), Base(c), g);
    ScratchFits(c, Magnitude(v), g);
    ScratchDenotes(c, Magnitude(v), g);
    ZeroIsEmpty(Magnitude(v), Base(c), g);
    ConformsExactly(ds, v < 0, Base(c), prec, width, g);
    assert g.(hash := g.hash && Magnitude(v) != 0) == g;
  }

  lemma ZeroIsEmpty(value: nat, base: nat, f: Flags)
    requires 2 <= base <= 16
    ensures f.precision && value == 0 ==> ScratchDigits(value, base, f) == []
  {
  }

  /** %d and %i show the sign and denote the magnitude unless the sign displaces a digit or has no room. */
  lemma SignedKeepsValue(c: char, f: Flags, width: nat, prec: nat, size: Size, s: Slot)
    returns (before: nat, zeros: nat, after: nat, digits: string)
    requires IsSigned(c)
    requires var g, v := IntegerFlags(c, f), SignedValue(size, s);
             var d := |ScratchDigits(Magnitude(v), 10, g)|;
             !DropsDigit(d, Sign(v < 0, g), prec, width, g) && !DropsSign(d, Sign(v < 0, g), prec, width, g)
    ensures IntegerText(c, f, width, prec, size, s) ==
            Repeat(' ', before) + (Sign(SignedValue(size, s) < 0, IntegerFlags(c, f)) + Repeat('0', zeros) + digits) +
            Repeat(' ', after)
    ensures Numeral(Repeat('0', zeros) + digits, 10) == Magnitude(SignedValue(size, s))
  {
    hide Field, Horner, ScratchDigits, SignedValue, Numeral, Sign, DropsDigit, DropsSign, Reversed;
    var g, v := IntegerFlags(c, f), SignedValue(size, s);
    var ds := ScratchDigits(Magnitude(v), 10, g);
    ValueInRange(c, size, s);
    ScratchDenotes(c, Magnitude(v), g);
    assert g.(hash := g.hash && Magnitude(v) != 0) == g;
    digits := Reversed(ds);
    before, zeros, after := KeepsSignAndDigits(ds, v < 0, 10, prec, width, g);
  }

  /** The bounds under which nothing is displaced: short precision, short zero padding, another width. */
  lemma NothingDisplaced(d: nat, sign: string, prec: nat, width: nat, f: Flags)
    requires d < BUFFER_SIZE && prec < BUFFER_SIZE && (f.zeropad && !f.left ==> width < BUFFER_SIZE)
    requires sign != [] ==> width != d
    ensures !DropsDigit(d, sign, prec, width, f) && !DropsSign(d, sign, prec, width, f)
  {
  }

  // ----- reading back -----

  lemma UnsignedBody(n: nat, prec: nat, width: nat, f: Flags)
    requires n < UINT_RANGE && !f.hash && !f.plus && !f.space
    ensures var ds := ScratchDigits(n, 10, f);
            var cells := KeptCells(|ds|, "", prec, width, f);
            |ds| <= cells &&
            Ntoa(n, false, 10, prec, width, f) == Arranged(Repeat('0', cells - |ds|) + Reversed(ds), width, f)
  {
    hide ScratchDigits, Field, Arranged, KeptCells, Reversed, Repeat;
    var ds := ScratchDigits(n, 10, f);
    assert f.(hash := f.hash && n != 0) == f && Sign(false, f) == "";
    ShownField(ds, false, 10, prec, width, f);
    var z := Repeat('0', KeptCells(|ds|, "", prec, width, f) - |ds|);
    assert "" + z == z;
  }

  lemma PaddedDecimal(n: nat, cells: nat, f: Flags, i: nat)
    requires n < UINT_RANGE && |ScratchDigits(n, 10, f)| <= cells && !f.upper
    requires i < cells
    ensures IsDigit((Repeat('0', cells - |ScratchDigits(n, 10, f)|) + Reversed(ScratchDigits(n, 10, f)))[i])
  {
    hide Reversed, Digits;
    var ds := ScratchDigits(n, 10, f);
    var z := cells - |ds|;
    if i >= z {
      ReversedAt(ds, i - z);
      DecimalDigits(n, BUFFER_SIZE, |ds| - 1 - (i - z));
    }
  }

  lemma PaddedValue(n: nat, zeros: nat, f: Flags)
    requires n < UINT_RANGE
    ensures Numeral(Repeat('0', zeros) + Reversed(ScratchDigits(n, 10, f)), 10) == n
  {
    hide Reversed, Numeral, Horner, ScratchDigits;
    ScratchDenotes('u', n, f);
    NumeralOfPadded(ScratchDigits(n, 10, f), zeros, 10);
  }

  /** Text that begins with its digits, followed by spaces or by something that is no digit. */
  lemma ReadsFront(text: string, blanks: nat, tail: string)
    requires (forall i :: 0 <= i < |text| ==> IsDigit(text[i])) && (tail == [] || !IsDigit(tail[0]))
    ensures Read(text + Repeat(' ', blanks) + tail) == Numeral(text, 10) % UINT_RANGE
  {
    hide Numeral, Repeat, DigitRun, IsDigit;
    var rest := Repeat(' ', blanks) + tail;
    BlankFront(blanks, tail);
    Associates3(text, Repeat(' ', blanks), tail);
    FrontRun(text, rest);
  }

  lemma BlankFront(blanks: nat, tail: string)
    requires tail == [] || !IsDigit(tail[0])
    ensures var rest := Repeat(' ', blanks) + tail; rest == [] || !IsDigit(rest[0])
  {
  }

  lemma FrontRun(text: string, rest: string)
    requires (forall i :: 0 <= i < |text| ==> IsDigit(text[i])) && (rest == [] || !IsDigit(rest[0]))
    ensures Read(text + rest) == Numeral(text, 10) % UINT_RANGE
  {
    hide Numeral, DigitRun, IsDigit;
    DigitRunUnique(text + rest, |text|);
    assert (text + rest)[..|text|] == text;
  }

  /** For %u with '-', with an effective '0', or without a width, _atoi reads back the number printed. */
  lemma UnsignedReadsBack(n: nat, prec: nat, width: nat, f: Flags, tail: string)
    requires n < UINT_RANGE && !f.hash && !f.plus && !f.space && !f.upper && (f.left || f.zeropad || width == 0)
    requires tail == [] || !IsDigit(tail[0])
    ensures Read(Ntoa(n, false, 10, prec, width, f) + tail) == n
  {
    hide ScratchDigits, Ntoa, KeptCells, Reversed, Repeat, Numeral, Read;
    var ds := ScratchDigits(n, 10, f);
    var cells := KeptCells(|ds|, "", prec, width, f);
    UnsignedBody(n, prec, width, f);
    var text := Repeat('0', cells - |ds|) + Reversed(ds);
    forall i | 0 <= i < |text| ensures IsDigit(text[i]) { PaddedDecimal(n, cells, f, i); }
    PaddedValue(n, cells - |ds|, f);
    var blanks := if f.left then Max(0, width - |text|) else 0;
    FrontOfArranged(text, width, f, blanks);
    ReadsFront(text, blanks, tail);
  }

  lemma FrontOfArranged(text: string, width: nat, f: Flags, blanks: nat)
    requires (f.left || f.zeropad || width == 0) && blanks == if f.left then Max(0, width - |text|) else 0
    ensures Arranged(text, width, f) == text + Repeat(' ', blanks)
  {
  }

  // ----- from the format to the text -----

  /** A directive as text. */
  function Spelled(fs: string, w: Amount, p: Amount, len: Length, tail: string): string {
    "%" + (fs + (SpelledWidth(w) + (SpelledPrecision(p) + (len.Spelled() + tail))))
  }

  predicate Spellable(fs: string, w: Amount, p: Amount, tail: string) {
    && (forall i :: 0 <= i < |fs| ==> IsFlag(fs[i])) && Writable(w) && Writable(p) && w != Number(0)
    && tail != [] && IsConversion(tail[0]) && tail[0] != 'f' && tail[0] != 'F' && Supported(tail[1..])
  }

  /** The directive that a spelling stands for, and what it renders to. */
  lemma SpelledRenders(fs: string, w: Amount, p: Amount, len: Length, tail: string, va: seq<Slot>)
    requires Spellable(fs, w, p, tail)
    ensures var fmt := Spelled(fs, w, p, len, tail);
            var d := Directive(FlagSet(fs, NO_FLAGS).(precision := !p.Absent?), w, p, len.Size(), tail);
            Supported(fmt) && Render(fmt, va) == Expanded(d, va).0 + Render(tail[1..], Expanded(d, va).1)
  {
    hide Parse, Expanded, SpelledWidth, SpelledPrecision, FlagSet;
    var body := fs + (SpelledWidth(w) + (SpelledPrecision(p) + (len.Spelled() + tail)));
    ParseRoundTrip(fs, w, p, len, tail);
    assert ("%" + body)[1..] == body && ("%" + body)[0] == '%';
  }

  /** A spelled directive prints the conversion it names, then the rest of the format. */
  lemma SpelledDirectiveRenders(fs: string, w: Amount, p: Amount, len: Length, tail: string, va: seq<Slot>)
    requires Spellable(fs, w, p, tail) && !w.Star? && !p.Star?
    ensures var fmt := Spelled(fs, w, p, len, tail);
            Supported(fmt) &&
            Render(fmt, va) ==
            Converted(tail[0], FlagSet(fs, NO_FLAGS).(precision := !p.Absent?), if w.Absent? then 0 else w.n,
                      if p.Absent? then 0 else p.n, len.Size(), Head(va)) +
            Render(tail[1..], if TakesArgument(tail[0]) then Tail(va) else va)
  {
    hide Converted, FlagSet, Render, Supported, Spelled;
    SpelledRenders(fs, w, p, len, tail, va);
  }

  lemma {:induction false} MinusFlag(fs: string, f: Flags)
    ensures FlagSet(fs + "-", f) == FlagSet(fs, f).(left := true)
    decreases |fs|
  {
    if fs == [] {
      assert fs + "-" == "-" && "-"[1..] == "";
    } else {
      assert (fs + "-")[0] == fs[0] && (fs + "-")[1..] == fs[1..] + "-";
      MinusFlag(fs[1..], WithFlag(f, fs[0]));
    }
  }

  /** A width given by an argument, as flags and an amount that can be spelled. */
  function GivenWidth(fs: string, arg: Slot): (string, Amount) {
    var w := AsInt(arg);
    if w < 0 then (fs + "-", Number(-w)) else (fs, if w == 0 then Absent else Number(w))
  }

  lemma GivenIsSpellable(fs: string, p: Amount, tail: string, arg: Slot)
    requires Spellable(fs, Star, p, tail)
    ensures var (gs, w) := GivenWidth(fs, arg); Spellable(gs, w, p, tail)
  {
    hide Supported;
    assert -INT_MAX - 1 <= AsInt(arg) <= INT_MAX;
  }

  lemma StarWidthExpands(d: Directive, w: Amount, left: bool, arg: Slot, va: seq<Slot>)
    requires d.width == Star && d.rest != [] && left == (AsInt(arg) < 0)
    requires w == (if AsInt(arg) == 0 then Absent else Number(Magnitude(AsInt(arg))))
    ensures Expanded(d, [arg] + va) == Expanded(d.(flags := d.flags.(left := d.flags.left || left), width := w), va)
  {
    hide Converted, SignedOf;
    assert Tail([arg] + va) == va;
  }

  /** A format with a star width prints what the same format prints with its argument written out. */
  lemma StarWidthIsSpelled(fs: string, p: Amount, len: Length, tail: string, arg: Slot, va: seq<Slot>)
    requires Spellable(fs, Star, p, tail)
    ensures var (gs, w) := GivenWidth(fs, arg);
            var star, spelled := Spelled(fs, Star, p, len, tail), Spelled(gs, w, p, len, tail);
            Supported(star) && Supported(spelled) && Render(star, [arg] + va) == Render(spelled, va)
  {
    hide Supported, Render, Expanded, FlagSet, SignedOf, Spellable, Spelled;
    var (gs, w) := GivenWidth(fs, arg);
    GivenIsSpellable(fs, p, tail, arg);
    SpelledRenders(fs, Star, p, len, tail, [arg] + va);
    SpelledRenders(gs, w, p, len, tail, va);
    MinusFlag(fs, NO_FLAGS);
    TailShown(fs, Star, p, tail);
    var d := Directive(FlagSet(fs, NO_FLAGS).(precision := !p.Absent?), Star, p, len.Size(), tail);
    StarWidthExpands(d, w, AsInt(arg) < 0, arg, va);
  }

  lemma TailShown(fs: string, w: Amount, p: Amount, tail: string)
    requires Spellable(fs, w, p, tail)
    ensures tail != []
  {
  }

  lemma StarPrecisionExpands(d: Directive, arg: Slot, va: seq<Slot>)
    requires d.precision == Star && !d.width.Star? && d.rest != []
    ensures Expanded(d, [arg] + va) == Expanded(d.(precision := Number(Max(0, AsInt(arg)))), va)
  {
    hide Converted, SignedOf;
    assert Tail([arg] + va) == va;
  }

  /** A format with a star precision prints what it prints with its argument written out, a negative one as 0. */
  lemma StarPrecisionIsSpelled(fs: string, w: Amount, len: Length, tail: string, arg: Slot, va: seq<Slot>)
    requires Spellable(fs, w, Star, tail) && !w.Star?
    ensures var star := Spelled(fs, w, Star, len, tail);
            var spelled := Spelled(fs, w, Number(Max(0, AsInt(arg))), len, tail);
            Supported(star) && Supported(spelled) && Render(star, [arg] + va) == Render(spelled, va)
  {
    hide Supported, Render, Expanded, FlagSet, Spelled;
    var p := Number(Max(0, AsInt(arg)));
    SpelledRenders(fs, w, Star, len, tail, [arg] + va);
    SpelledRenders(fs, w, p, len, tail, va);
    StarPrecisionExpands(Directive(FlagSet(fs, NO_FLAGS).(precision := true), w, Star, len.Size(), tail), arg, va);
  }

  // ----- formats in sequence -----

  /** The arguments that a format leaves. */
  function Leftover(fmt: string, va: seq<Slot>): seq<Slot>
    requires Supported(fmt)
    decreases |fmt|
  {
    if fmt == [] then va
    else if fmt[0] != '%' then Leftover(fmt[1..], va)
    else var d := Parse(fmt[1..]); Leftover(d.rest[1..], Expanded(d, va).1)
  }

  lemma {:induction false} FlagsLocal(s: string, t: string, f: Flags)
    requires TakeFlags(s, f).1 != []
    ensures TakeFlags(s + t, f) == (TakeFlags(s, f).0, TakeFlags(s, f).1 + t)
    decreases |s|
  {
    if s != [] && IsFlag(s[0]) {
      assert (s + t)[1..] == s[1..] + t;
      FlagsLocal(s[1..], t, WithFlag(f, s[0]));
    }
  }

  lemma AmountLocal(s: string, t: string)
    requires TakeAmount(s).1 != []
    ensures TakeAmount(s + t) == (TakeAmount(s).0, TakeAmount(s).1 + t)
  {
    hide Numeral;
    assert (s + t)[0] == s[0] && (s + t)[1..] == s[1..] + t;
    if IsDigit(s[0]) {
      var n := DigitRun(s);
      DigitRunUnique(s + t, n);
      assert (s + t)[..n] == s[..n] && (s + t)[n..] == s[n..] + t;
    }
  }

  lemma PrecisionLocal(s: string, t: string, f: Flags)
    requires TakePrecision(s, f).2 != []
    ensures TakePrecision(s + t, f) == (TakePrecision(s, f).0, TakePrecision(s, f).1, TakePrecision(s, f).2 + t)
  {
    hide TakeAmount;
    assert (s + t)[0] == s[0] && (s + t)[1..] == s[1..] + t;
    if s[0] == '.' { AmountLocal(s[1..], t); }
  }

  lemma LengthLocal(s: string, t: string)
    requires TakeLength(s).1 != []
    ensures TakeLength(s + t) == (TakeLength(s).0, TakeLength(s).1 + t)
  {
    assert (s + t)[0] == s[0] && (s + t)[1..] == s[1..] + t;
    assert |s| > 1 ==> (s + t)[1] == s[1] && (s + t)[2..] == s[2..] + t;
  }

  /** What follows a complete directive does not change how it is scanned. */
  lemma ParseLocal(s: string, t: string)
    requires Parse(s).rest != []
    ensures Parse(s + t) == Parse(s).(rest := Parse(s).rest + t)
  {
    hide TakeFlags, TakeAmount, TakePrecision, TakeLength;
    var (f1, s1) := TakeFlags(s, NO_FLAGS);
    var (w, s2) := TakeAmount(s1);
    var (f2, p, s3) := TakePrecision(s2, f1);
    FlagsLocal(s, t, NO_FLAGS);
    AmountLocal(s1, t);
    PrecisionLocal(s2, t, f1);
    LengthLocal(s3, t);
  }

  /** A format after a format: the texts follow each other, and the second takes up the arguments left. */
  lemma {:induction false} RenderConcat(a: string, b: string, va: seq<Slot>)
    requires Supported(a) && Supported(b)
    ensures Supported(a + b) && Render(a + b, va) == Render(a, va) + Render(b, Leftover(a, va))
    decreases |a|
  {
    hide Parse, Expanded;
    if a == [] {
      assert a + b == b && [] + Render(b, va) == Render(b, va);
    } else {
      assert (a + b)[0] == a[0] && (a + b)[1..] == a[1..] + b;
      if a[0] != '%' {
        RenderConcat(a[1..], b, va);
        Associates3([a[0]], Render(a[1..], va), Render(b, Leftover(a[1..], va)));
      } else {
        var d := Parse(a[1..]);
        var text, left := Expanded(d, va).0, Expanded(d, va).1;
        ParseLocal(a[1..], b);
        assert (d.rest + b)[0] == d.rest[0] && (d.rest + b)[1..] == d.rest[1..] + b;
        ExpandedLocal(d, b, va);
        RenderConcat(d.rest[1..], b, left);
        Associates3(text, Render(d.rest[1..], left), Render(b, Leftover(d.rest[1..], left)));
      }
    }
  }

  lemma ExpandedLocal(d: Directive, b: string, va: seq<Slot>)
    requires d.rest != []
    ensures Expanded(d.(rest := d.rest + b), va) == Expanded(d, va)
  {
    hide Converted;
  }
}
