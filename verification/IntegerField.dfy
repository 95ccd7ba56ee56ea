/**
 * The field of an integer conversion: _ntoa_format of api/keystone/vsnprintf.c
 * as a function of the scratch digits, and what it means against section
 * 7.21.6.1 of ISO C11.
 */
module IntegerField {
  import opened Basics
  import opened Numerals

  /** The FLAGS_* bits that concern layout; those that concern the argument's size are in Size. */
  datatype Flags = Flags(zeropad: bool, left: bool, plus: bool, space: bool, hash: bool, upper: bool, precision: bool)

  const NO_FLAGS := Flags(false, false, false, false, false, false, false)

  // ----- the scratch buffer, least significant character first -----

  /** Zeros up to `n`, as far as the buffer goes. */
  function Padded(s: string, n: nat): (r: string)
    requires |s| <= BUFFER_SIZE
    ensures |r| == Max(|s|, Min(n, BUFFER_SIZE))
  {
    s + Repeat('0', Min(n, BUFFER_SIZE) - |s|)
  }

  function ZeroPadded(ds: string, prec: nat, width: nat, f: Flags): (r: string)
    requires |ds| <= BUFFER_SIZE
    ensures |ds| <= |r| <= BUFFER_SIZE
  {
    if f.left then ds
    else if f.zeropad then Padded(Padded(ds, prec), width)
    else Padded(ds, prec)
  }

  function Push(s: string, c: char): string { if |s| < BUFFER_SIZE then s + [c] else s }

  /** The `#` prefix: it takes the place of digits when the field is full and no precision is given. */
  function Prefixed(s: string, base: nat, prec: nat, width: nat, f: Flags): (r: string)
    requires |s| <= BUFFER_SIZE
    ensures |s| <= |r| <= BUFFER_SIZE
  {
    if !f.hash then s
    else
      var cut := if f.precision || s == [] || (|s| != prec && |s| != width) then 0
                 else if base == 16 && |s| > 1 then 2 else 1;
      var kept := s[..|s| - cut];
      var marked := if base == 16 then Push(kept, if f.upper then 'X' else 'x')
                    else if base == 2 then Push(kept, 'b') else kept;
      Push(marked, '0')
  }

  /** The sign character, if one is shown. */
  function Sign(negative: bool, f: Flags): (s: string)
    ensures |s| <= 1
  {
    if negative then "-" else if f.plus then "+" else if f.space then " " else ""
  }

  /** The sign takes the place of the top character when the field is full. */
  function Signed(s: string, sign: string, width: nat): (r: string)
    requires |s| <= BUFFER_SIZE && |sign| <= 1
    ensures |s| <= |r| <= BUFFER_SIZE
  {
    var kept := if s != [] && |s| == width && sign != [] then s[..|s| - 1] else s;
    if |kept| < BUFFER_SIZE then kept + sign else kept
  }

  function Body(ds: string, negative: bool, base: nat, prec: nat, width: nat, f: Flags): (r: string)
    requires |ds| <= BUFFER_SIZE
    ensures |r| <= BUFFER_SIZE
  {
    Signed(Prefixed(ZeroPadded(ds, prec, width, f), base, prec, width, f), Sign(negative, f), width)
  }

  /** Text in reading order with spaces on one side. */
  function Arranged(text: string, width: nat, f: Flags): string {
    if f.left then text + Repeat(' ', width - |text|)
    else if f.zeropad then text
    else Repeat(' ', width - |text|) + text
  }

  /** The characters that reach the output: the body reversed, with spaces on one side. */
  function Laid(body: string, width: nat, f: Flags): string { Arranged(Reversed(body), width, f) }

  function Field(ds: string, negative: bool, base: nat, prec: nat, width: nat, f: Flags): string
    requires |ds| <= BUFFER_SIZE
  {
    Laid(Body(ds, negative, base, prec, width, f), width, f)
  }

  // ----- the length of the field -----

  lemma BodyFillsWidth(ds: string, negative: bool, base: nat, prec: nat, width: nat, f: Flags)
    requires |ds| <= BUFFER_SIZE && f.zeropad && !f.left
    ensures |Body(ds, negative, base, prec, width, f)| >= Min(width, BUFFER_SIZE)
  {
    hide Padded, Prefixed, Signed;
  }

  /** The field is as wide as asked and as its body needs, except for zero padding past the buffer. */
  lemma FieldLength(ds: string, negative: bool, base: nat, prec: nat, width: nat, f: Flags)
    requires |ds| <= BUFFER_SIZE
    ensures var body := Body(ds, negative, base, prec, width, f);
            |Field(ds, negative, base, prec, width, f)| == Max(width, |body|) <==>
            !(f.zeropad && !f.left && width > BUFFER_SIZE)
  {
    hide Body;
    if f.zeropad && !f.left { BodyFillsWidth(ds, negative, base, prec, width, f); }
  }

  // ----- the field without `#` -----

  /** How many characters stand in the buffer before the sign is placed. */
  function DigitCells(d: nat, prec: nat, width: nat, f: Flags): nat {
    if f.left then d
    else Max(Max(d, Min(prec, BUFFER_SIZE)), if f.zeropad then Min(width, BUFFER_SIZE) else 0)
  }

  lemma ZeroPaddedIs(ds: string, prec: nat, width: nat, f: Flags)
    requires |ds| <= BUFFER_SIZE
    ensures var n := DigitCells(|ds|, prec, width, f);
            |ds| <= n <= BUFFER_SIZE && ZeroPadded(ds, prec, width, f) == ds + Repeat('0', n - |ds|)
  {
  }

  lemma {:induction false} ReversedConcat(a: string, b: string)
    ensures Reversed(a + b) == Reversed(b) + Reversed(a)
    decreases |a|
  {
    if a == [] {
      assert a + b == b && Reversed(b) + [] == Reversed(b);
    } else {
      assert (a + b)[0] == a[0] && (a + b)[1..] == a[1..] + b;
      ReversedConcat(a[1..], b);
      Associates3(Reversed(b), Reversed(a[1..]), [a[0]]);
    }
  }

  lemma ReversedZeros(n: int)
    ensures Reversed(Repeat('0', n)) == Repeat('0', n)
  {
    hide Reversed;
    forall i | 0 <= i < |Repeat('0', n)| ensures Reversed(Repeat('0', n))[i] == '0' { ReversedAt(Repeat('0', n), i); }
  }

  /** The plain reading of a body of `n` digit cells: sign, zeros, digits. */
  lemma ReversedBody(ds: string, n: nat, sign: string)
    requires |ds| <= n && |sign| <= 1
    ensures Reversed(ds + Repeat('0', n - |ds|) + sign) == sign + Repeat('0', n - |ds|) + Reversed(ds)
  {
    hide Reversed, Repeat;
    var z := Repeat('0', n - |ds|);
    ReversedConcat(ds + z, sign);
    ReversedConcat(ds, z);
    ReversedZeros(n - |ds|);
    ReversedSign(sign);
    Associates3(sign, z, Reversed(ds));
  }

  lemma ReversedSign(sign: string)
    requires |sign| <= 1
    ensures Reversed(sign) == sign
  {
  }

  lemma Associates3(a: string, b: string, c: string)
    ensures a + (b + c) == a + b + c
  {
  }

  /** The sign displaces a real digit: the field is full of bare digits. */
  predicate DropsDigit(d: nat, sign: string, prec: nat, width: nat, f: Flags) {
    sign != [] && 1 <= d == width && DigitCells(d, prec, width, f) == d
  }

  /** The sign finds no room: the buffer is full and the width is not exactly its size. */
  predicate DropsSign(d: nat, sign: string, prec: nat, width: nat, f: Flags) {
    sign != [] && DigitCells(d, prec, width, f) == BUFFER_SIZE && width != BUFFER_SIZE
  }

  /** The digit cells that stay once the sign has been placed. */
  function KeptCells(d: nat, sign: string, prec: nat, width: nat, f: Flags): nat {
    var n := DigitCells(d, prec, width, f);
    if sign != [] && n == width && n > 0 then n - 1 else n
  }

  lemma BodyWithoutHash(ds: string, negative: bool, base: nat, prec: nat, width: nat, f: Flags)
    requires |ds| <= BUFFER_SIZE && !f.hash
    requires !DropsDigit(|ds|, Sign(negative, f), prec, width, f) && !DropsSign(|ds|, Sign(negative, f), prec, width, f)
    ensures var sign := Sign(negative, f);
            var n := KeptCells(|ds|, sign, prec, width, f);
            |ds| <= n && Body(ds, negative, base, prec, width, f) == ds + Repeat('0', n - |ds|) + sign
  {
    hide ZeroPadded, Padded;
    ZeroPaddedIs(ds, prec, width, f);
  }

  /**
   * A conversion keeps sign and magnitude unless the sign displaces a digit or finds no room: the
   * field is spaces, the sign, zeros and the digits of the value, and spaces.
   */
  lemma KeepsSignAndDigits(ds: string, negative: bool, base: nat, prec: nat, width: nat, f: Flags)
    returns (before: nat, zeros: nat, after: nat)
    requires |ds| <= BUFFER_SIZE && !f.hash
    requires !DropsDigit(|ds|, Sign(negative, f), prec, width, f) && !DropsSign(|ds|, Sign(negative, f), prec, width, f)
    ensures Field(ds, negative, base, prec, width, f) ==
            Repeat(' ', before) + (Sign(negative, f) + Repeat('0', zeros) + Reversed(ds)) + Repeat(' ', after)
    ensures Numeral(Repeat('0', zeros) + Reversed(ds), base) == Horner(ds, base)
  {
    hide Body, Sign, Reversed, Repeat, KeptCells;
    var sign := Sign(negative, f);
    var n := KeptCells(|ds|, sign, prec, width, f);
    BodyWithoutHash(ds, negative, base, prec, width, f);
    var body := Body(ds, negative, base, prec, width, f);
    ReversedBody(ds, n, sign);
    zeros := n - |ds|;
    NumeralOfPadded(ds, zeros, base);
    before, after := LaidOut(body, width, f);
  }

  lemma LaidOut(body: string, width: nat, f: Flags) returns (before: nat, after: nat)
    ensures Laid(body, width, f) == Repeat(' ', before) + Reversed(body) + Repeat(' ', after)
  {
    var gap := Max(0, width - |body|);
    before, after := if f.left || f.zeropad then 0 else gap, if f.left then gap else 0;
    assert Repeat(' ', 0) + Reversed(body) == Reversed(body);
    assert Laid(body, width, f) + Repeat(' ', 0) == Laid(body, width, f);
  }

  lemma NumeralOfPadded(ds: string, zeros: nat, base: nat)
    ensures Numeral(Repeat('0', zeros) + Reversed(ds), base) == Horner(ds, base)
  {
    PaddingIsSilent(ds, zeros, base);
    ReversedNumeral(ds + Repeat('0', zeros), base);
    ReversedConcat(ds, Repeat('0', zeros));
    ReversedZeros(zeros);
  }

  /** Where the sign displaces a digit, the field shows the sign and the digits but the first. */
  lemma DropsTopDigit(ds: string, negative: bool, base: nat, prec: nat, width: nat, f: Flags)
    requires |ds| <= BUFFER_SIZE && !f.hash && DropsDigit(|ds|, Sign(negative, f), prec, width, f)
    ensures Field(ds, negative, base, prec, width, f) == Sign(negative, f) + Reversed(ds)[1..]
  {
    hide ZeroPadded, Padded, Reversed, Repeat, Laid;
    ZeroPaddedIs(ds, prec, width, f);
    var sign := Sign(negative, f);
    var kept := ds[..|ds| - 1];
    assert ds + Repeat('0', 0) == ds;
    assert Body(ds, negative, base, prec, width, f) == kept + sign;
    ReversedConcat(kept, sign);
    ReversedSign(sign);
    ReversedAllButLast(ds);
    LaidFull(kept + sign, width, f);
  }

  lemma ReversedAllButLast(ds: string)
    requires ds != []
    ensures Reversed(ds[..|ds| - 1]) == Reversed(ds)[1..]
  {
    hide Reversed;
    SnocAgain(ds);
    ReversedSnoc(ds[..|ds| - 1], ds[|ds| - 1]);
  }

  lemma SnocAgain(ds: string)
    requires ds != []
    ensures ds[..|ds| - 1] + [ds[|ds| - 1]] == ds
  {
  }

  lemma ReversedSnoc(a: string, c: char)
    ensures Reversed(a) == Reversed(a + [c])[1..]
  {
    hide Reversed;
    ReversedConcat(a, [c]);
    DropOne(Reversed([c]), Reversed(a));
  }

  lemma DropOne(a: string, b: string)
    requires |a| == 1
    ensures (a + b)[1..] == b
  {
  }

  lemma LaidFull(body: string, width: nat, f: Flags)
    requires |body| >= width
    ensures Laid(body, width, f) == Reversed(body)
  {
  }

  /** Where the sign finds no room, the field shows no sign at all. */
  lemma LosesSign(ds: string, negative: bool, base: nat, prec: nat, width: nat, f: Flags)
    requires |ds| <= BUFFER_SIZE && !f.hash && DropsSign(|ds|, Sign(negative, f), prec, width, f)
    ensures Field(ds, negative, base, prec, width, f) ==
            Laid(ds + Repeat('0', BUFFER_SIZE - |ds|), width, f)
  {
    hide ZeroPadded, Padded, Laid;
    ZeroPaddedIs(ds, prec, width, f);
  }

  // ----- conformance to ISO C11 -----

  /** Section 7.21.6.1: what leads the number, the number itself, and the padding that the flags ask for. */
  function IsoLayout(lead: string, numeral: string, width: nat, f: Flags): string {
    if f.left then lead + numeral + Repeat(' ', width - |lead + numeral|)
    else if f.zeropad then lead + (Repeat('0', width - |lead + numeral|) + numeral)
    else Repeat(' ', width - |lead + numeral|) + (lead + numeral)
  }

  /** The field that section 7.21.6.1 describes for the digits of a value. */
  function IsoField(ds: string, sign: string, prec: nat, width: nat, f: Flags): string {
    IsoLayout(sign, Repeat('0', prec - |ds|) + Reversed(ds), width, f)
  }

  /** The directives whose output is the standard's, by digit count, sign, precision, width and flags. */
  predicate Conforms(d: nat, sign: string, prec: nat, width: nat, f: Flags) {
    var m := Max(d, prec);
    if f.left then prec <= d && !(sign != [] && 1 <= d == width)
    else if sign == " " && prec == BUFFER_SIZE && width > BUFFER_SIZE then true
    else m + |sign| <= BUFFER_SIZE && !(sign != [] && 1 <= m == width) && (f.zeropad ==> width <= BUFFER_SIZE)
  }

  /** What the conversions guarantee: '0' is dropped when a precision is given, and numerals have no leading zero. */
  predicate Convertible(ds: string, sign: string, prec: nat, f: Flags) {
    && !f.hash && |sign| <= 1 && |ds| + |sign| <= BUFFER_SIZE && (f.zeropad ==> prec == 0)
    && (prec > 0 && ds != [] ==> ds[|ds| - 1] != '0' && ds[|ds| - 1] != ' ')
  }

  lemma IsoLength(ds: string, sign: string, prec: nat, width: nat, f: Flags)
    ensures |IsoField(ds, sign, prec, width, f)| == Max(width, |sign| + Max(|ds|, prec))
  {
  }

  /** The field of a body that shows its sign and `n` digit cells. */
  lemma ShownField(ds: string, negative: bool, base: nat, prec: nat, width: nat, f: Flags)
    requires |ds| <= BUFFER_SIZE && !f.hash
    requires !DropsDigit(|ds|, Sign(negative, f), prec, width, f) && !DropsSign(|ds|, Sign(negative, f), prec, width, f)
    ensures var sign := Sign(negative, f);
            var n := KeptCells(|ds|, sign, prec, width, f);
            |ds| <= n && Field(ds, negative, base, prec, width, f) ==
            Arranged(sign + Repeat('0', n - |ds|) + Reversed(ds), width, f)
  {
    hide Body, Field, Sign, Reversed, Repeat, KeptCells, Arranged, DropsDigit, DropsSign;
    var sign := Sign(negative, f);
    var n := KeptCells(|ds|, sign, prec, width, f);
    BodyWithoutHash(ds, negative, base, prec, width, f);
    ReversedBody(ds, n, sign);
    FieldIs(ds, negative, base, prec, width, f);
  }

  lemma FieldIs(ds: string, negative: bool, base: nat, prec: nat, width: nat, f: Flags)
    requires |ds| <= BUFFER_SIZE
    ensures Field(ds, negative, base, prec, width, f) ==
            Arranged(Reversed(Body(ds, negative, base, prec, width, f)), width, f)
  {
    hide Body, Arranged, Reversed;
  }

  lemma ConformsHolds(ds: string, negative: bool, base: nat, prec: nat, width: nat, f: Flags)
    requires Convertible(ds, Sign(negative, f), prec, f) && Conforms(|ds|, Sign(negative, f), prec, width, f)
    ensures Field(ds, negative, base, prec, width, f) == IsoField(ds, Sign(negative, f), prec, width, f)
  {
    hide Field, Sign, Reversed;
    var d, sign := |ds|, Sign(negative, f);
    if !f.left && sign == " " && prec == BUFFER_SIZE && width > BUFFER_SIZE {
      BlankSign(ds, negative, base, prec, width, f);
    } else {
      NothingDropped(d, sign, prec, width, f);
      ShownField(ds, negative, base, prec, width, f);
      if !f.left && f.zeropad { ZeroFilledIsIso(ds, sign, width, f); } else { SpacedIsIso(ds, sign, prec, width, f); }
    }
  }

  lemma NothingDropped(d: nat, sign: string, prec: nat, width: nat, f: Flags)
    requires |sign| <= 1 && d + |sign| <= BUFFER_SIZE && (f.zeropad ==> prec == 0)
    requires Conforms(d, sign, prec, width, f)
    requires !(!f.left && sign == " " && prec == BUFFER_SIZE && width > BUFFER_SIZE)
    ensures !DropsDigit(d, sign, prec, width, f) && !DropsSign(d, sign, prec, width, f)
    ensures KeptCells(d, sign, prec, width, f) ==
            if !f.left && f.zeropad then Max(d, width - |sign|) else Max(d, prec)
  {
  }

  lemma SpacedIsIso(ds: string, sign: string, prec: nat, width: nat, f: Flags)
    requires f.left || !f.zeropad
    ensures Arranged(sign + Repeat('0', Max(|ds|, prec) - |ds|) + Reversed(ds), width, f) ==
            IsoField(ds, sign, prec, width, f)
  {
    hide Reversed, Repeat;
    CoreText(ds, sign, prec);
    ArrangedCore(ds, sign, prec, width, f);
    hide Arranged, IsoField;
  }

  lemma CoreText(ds: string, sign: string, prec: int)
    ensures sign + Repeat('0', Max(|ds|, prec) - |ds|) + Reversed(ds) ==
            sign + (Repeat('0', prec - |ds|) + Reversed(ds))
  {
    hide Reversed, Repeat;
    SameZeros(|ds|, prec);
    Associates3(sign, Repeat('0', prec - |ds|), Reversed(ds));
  }

  lemma ArrangedCore(ds: string, sign: string, prec: nat, width: nat, f: Flags)
    requires f.left || !f.zeropad
    ensures Arranged(sign + (Repeat('0', prec - |ds|) + Reversed(ds)), width, f) == IsoField(ds, sign, prec, width, f)
  {
    hide Reversed, Repeat;
  }

  lemma ZeroFilledIsIso(ds: string, sign: string, width: nat, f: Flags)
    requires !f.left && f.zeropad
    ensures Arranged(sign + Repeat('0', Max(|ds|, width - |sign|) - |ds|) + Reversed(ds), width, f) ==
            IsoField(ds, sign, 0, width, f)
  {
    hide Reversed, Repeat;
    CoreText(ds, sign, width - |sign|);
    ZeroFilledCore(ds, sign, width, f);
    hide IsoField;
  }

  lemma ZeroFilledCore(ds: string, sign: string, width: nat, f: Flags)
    requires !f.left && f.zeropad
    ensures IsoField(ds, sign, 0, width, f) == sign + (Repeat('0', width - |sign| - |ds|) + Reversed(ds))
  {
    hide Reversed, Repeat;
    var r := Reversed(ds);
    assert Repeat('0', 0 - |ds|) + r == r by { SameZeros(|ds|, 0); }
    assert |sign + r| == |sign| + |ds|;
  }

  lemma SameZeros(d: nat, n: int)
    ensures Repeat('0', Max(d, n) - d) == Repeat('0', n - d)
    ensures n <= d ==> Repeat('0', n - d) == []
  {
  }

  lemma BlankSign(ds: string, negative: bool, base: nat, prec: nat, width: nat, f: Flags)
    requires Convertible(ds, Sign(negative, f), prec, f) && !f.left
    requires Sign(negative, f) == " " && prec == BUFFER_SIZE && width > BUFFER_SIZE
    ensures Field(ds, negative, base, prec, width, f) == IsoField(ds, " ", prec, width, f)
  {
    hide Reversed, Field;
    LosesSign(ds, negative, base, prec, width, f);
    ReversedBody(ds, BUFFER_SIZE, "");
    var z := Repeat('0', BUFFER_SIZE - |ds|);
    assert ds + z + "" == ds + z && "" + z + Reversed(ds) == z + Reversed(ds);
    assert Repeat(' ', width - BUFFER_SIZE) == Repeat(' ', width - BUFFER_SIZE - 1) + " ";
    Associates3(Repeat(' ', width - BUFFER_SIZE - 1), " ", z + Reversed(ds));
  }

  // ----- the failing directives, all of them -----

  lemma FieldSize(ds: string, negative: bool, base: nat, prec: nat, width: nat, f: Flags)
    requires |ds| <= BUFFER_SIZE && !f.hash
    ensures var body := Body(ds, negative, base, prec, width, f);
            var kept := KeptCells(|ds|, Sign(negative, f), prec, width, f);
            |body| == Min(kept + |Sign(negative, f)|, BUFFER_SIZE) &&
            |Field(ds, negative, base, prec, width, f)| == if f.zeropad && !f.left then |body| else Max(width, |body|)
  {
    hide ZeroPadded, Padded, Reversed, Repeat;
    ZeroPaddedIs(ds, prec, width, f);
  }

  lemma LeadingBlank(ds: string, negative: bool, base: nat, prec: nat, width: nat, f: Flags, k: nat)
    requires |ds| <= BUFFER_SIZE && !f.left && !f.zeropad
    requires k < width - |Body(ds, negative, base, prec, width, f)|
    ensures k < |Field(ds, negative, base, prec, width, f)| && Field(ds, negative, base, prec, width, f)[k] == ' '
  {
    hide Body, Reversed;
  }

  /** In the standard's field a precision beyond the digits puts a zero right after the sign. */
  lemma IsoZero(ds: string, sign: string, prec: nat, width: nat, f: Flags)
    requires prec > |ds| && (f.left || !f.zeropad)
    ensures var k := (if f.left then 0 else Max(0, width - (|sign| + prec))) + |sign|;
            k < |IsoField(ds, sign, prec, width, f)| && IsoField(ds, sign, prec, width, f)[k] == '0' &&
            (|sign| == 1 ==> IsoField(ds, sign, prec, width, f)[k - 1] == sign[0])
  {
    hide Reversed;
  }

  lemma LeftDiffers(ds: string, negative: bool, base: nat, prec: nat, width: nat, f: Flags)
    requires Convertible(ds, Sign(negative, f), prec, f) && f.left && !Conforms(|ds|, Sign(negative, f), prec, width, f)
    ensures Field(ds, negative, base, prec, width, f) != IsoField(ds, Sign(negative, f), prec, width, f)
  {
    hide Field, IsoField, Sign, Reversed, Repeat;
    var sign := Sign(negative, f);
    IsoLength(ds, sign, prec, width, f);
    FieldSize(ds, negative, base, prec, width, f);
    if prec > |ds| && !(sign != [] && 1 <= |ds| == width) {
      ShownField(ds, negative, base, prec, width, f);
      IsoZero(ds, sign, prec, width, f);
      if |Field(ds, negative, base, prec, width, f)| >= |sign| + prec {
        AfterSign(ds, sign, width, f);
      }
    }
  }

  /** With the `-` flag the digits follow the sign directly; past them there are spaces. */
  lemma AfterSign(ds: string, sign: string, width: nat, f: Flags)
    requires f.left && |ds| + |sign| < Max(width, |ds| + |sign|) + (if ds == [] then 0 else 1)
    ensures var text := Arranged(sign + Repeat('0', |ds| - |ds|) + Reversed(ds), width, f);
            |sign| < |text| && text[|sign|] == if ds == [] then ' ' else ds[|ds| - 1]
  {
    hide Reversed;
    if ds != [] { ReversedAt(ds, 0); }
  }

  lemma RightDiffers(ds: string, negative: bool, base: nat, prec: nat, width: nat, f: Flags)
    requires Convertible(ds, Sign(negative, f), prec, f) && !f.left
    requires !Conforms(|ds|, Sign(negative, f), prec, width, f)
    ensures Field(ds, negative, base, prec, width, f) != IsoField(ds, Sign(negative, f), prec, width, f)
  {
    hide Field, Body, IsoField, Sign, Reversed, Repeat;
    var sign := Sign(negative, f);
    IsoLength(ds, sign, prec, width, f);
    FieldSize(ds, negative, base, prec, width, f);
    if !f.zeropad && Max(|ds|, prec) + |sign| > BUFFER_SIZE && width >= prec + |sign| && width != BUFFER_SIZE {
      var k := width - (|sign| + prec);
      IsoZero(ds, sign, prec, width, f);
      LeadingBlank(ds, negative, base, prec, width, f, k);
      if prec > BUFFER_SIZE { LeadingBlank(ds, negative, base, prec, width, f, k + |sign|); }
    }
  }

  /** The engine prints the standard's field exactly for the conforming directives. */
  lemma ConformsExactly(ds: string, negative: bool, base: nat, prec: nat, width: nat, f: Flags)
    requires Convertible(ds, Sign(negative, f), prec, f)
    ensures Field(ds, negative, base, prec, width, f) == IsoField(ds, Sign(negative, f), prec, width, f) <==>
            Conforms(|ds|, Sign(negative, f), prec, width, f)
  {
    hide Field, IsoField, Sign, Conforms, Convertible;
    if Conforms(|ds|, Sign(negative, f), prec, width, f) {
      ConformsHolds(ds, negative, base, prec, width, f);
    } else if f.left {
      LeftDiffers(ds, negative, base, prec, width, f);
    } else {
      RightDiffers(ds, negative, base, prec, width, f);
    }
  }
}
