/**
 * The alternate form '#' of %o, %x and %X in api/keystone/vsnprintf.c: the
 * prefix that _ntoa_format writes over or after the digits, against section
 * 7.21.6.1 of ISO C11, for values other than zero.
 */
module AlternateForm {
  import opened Basics
  import opened Numerals
  import opened IntegerField

  /** The mark of the base as it is read; for octal it is a leading zero. */
  function Mark(base: nat, upper: bool): (m: string)
    ensures 1 <= |m| <= 2 && m[0] == '0'
  {
    if base == 16 then (if upper then "0X" else "0x") else "0"
  }

  /** The number with its mark and `zeros` zeros after it. */
  function Marked(ds: string, base: nat, zeros: int, f: Flags): (s: string)
    ensures |s| == |Mark(base, f.upper)| + Max(0, zeros) + |ds| && s[0] == '0'
  {
    Mark(base, f.upper) + (Repeat('0', zeros) + Reversed(ds))
  }

  /** The field with '#': a prefix for %x; for %o one more digit unless the precision already leads with a zero. */
  function AlternateField(ds: string, base: nat, prec: nat, width: nat, f: Flags): string {
    var digits := Repeat('0', prec - |ds|) + Reversed(ds);
    if base == 16 then IsoLayout(Mark(base, f.upper), digits, width, f)
    else IsoLayout("", if prec > |ds| then digits else "0" + digits, width, f)
  }

  /** The zeros between the mark and the digits: from the precision, or from zero padding. */
  function MarkedZeros(d: nat, base: nat, prec: nat, width: nat, f: Flags): int {
    if f.zeropad && !f.left then width - d - |Mark(base, f.upper)|
    else if base == 16 then prec - d else prec - d - 1
  }

  /** The alternate forms that come out right, by digit count, base, precision, width and flags. */
  predicate AlternateConforms(d: nat, base: nat, prec: nat, width: nat, f: Flags) {
    var h := MarkSize(base);
    if f.left then (f.precision || width != d) && prec <= (if base == 16 then d else d + 1)
    else if f.zeropad then width <= BUFFER_SIZE && (width < d || width >= d + h)
    else if !f.precision then width != d
    else if base == 16 then prec + 2 <= BUFFER_SIZE
    else prec <= d || prec == BUFFER_SIZE
  }

  /** What the conversions guarantee for a nonzero value: no sign, no '0' with a precision, no leading zero. */
  predicate Markable(ds: string, base: nat, prec: nat, f: Flags) {
    && (base == 8 || base == 16) && 1 <= |ds| <= 22 && f.hash && Sign(false, f) == ""
    && (f.zeropad ==> !f.precision) && (!f.precision ==> prec == 0) && ds[|ds| - 1] != '0'
  }

  // ----- the standard's field -----

  lemma MarkedNumeral(ds: string, base: nat, prec: nat, f: Flags)
    requires base != 16
    ensures var digits := Repeat('0', prec - |ds|) + Reversed(ds);
            (if prec > |ds| then digits else "0" + digits) == Marked(ds, base, prec - |ds| - 1, f)
  {
    hide Reversed, Repeat;
    var n := prec - |ds|;
    if n > 0 {
      OneZeroMore(n);
      Associates3("0", Repeat('0', n - 1), Reversed(ds));
    } else {
      NoZeros(n);
      NoZeros(n - 1);
    }
  }

  lemma OneZeroMore(n: int)
    requires n > 0
    ensures Repeat('0', n) == "0" + Repeat('0', n - 1) == Repeat('0', n - 1) + "0"
  {
  }

  lemma NoZeros(n: int)
    requires n <= 0
    ensures Repeat('0', n) == ""
  {
  }

  lemma NoLead(s: string)
    ensures "" + s == s && s + "" == s
  {
  }

  lemma AlternateIs(ds: string, base: nat, prec: nat, width: nat, f: Flags)
    requires f.zeropad && !f.left ==> prec == 0 && ds != []
    ensures AlternateField(ds, base, prec, width, f) ==
            Arranged(Marked(ds, base, MarkedZeros(|ds|, base, prec, width, f), f), width, f)
  {
    hide Reversed, Repeat, Mark;
    if f.zeropad && !f.left {
      ZeroPaddedMark(ds, base, width, f);
    } else {
      if base != 16 { MarkedNumeral(ds, base, prec, f); }
      NoLead(Marked(ds, base, MarkedZeros(|ds|, base, prec, width, f), f));
    }
  }

  lemma ZeroPaddedMark(ds: string, base: nat, width: nat, f: Flags)
    requires f.zeropad && !f.left && ds != []
    ensures AlternateField(ds, base, 0, width, f) ==
            Marked(ds, base, width - |ds| - |Mark(base, f.upper)|, f)
  {
    hide Reversed, Repeat;
    var r := Reversed(ds);
    NoZeros(0 - |ds|);
    NoLead(r);
    var gap := width - |ds| - |Mark(base, f.upper)|;
    if base != 16 {
      OctalGap(gap, r);
      NoLead("0" + (Repeat('0', gap) + r));
    }
  }

  lemma OctalGap(gap: int, r: string)
    ensures Repeat('0', gap) + ("0" + r) == "0" + (Repeat('0', gap) + r)
  {
  }

  // ----- the engine's field -----

  function MarkSize(base: nat): nat { if base == 16 then 2 else 1 }

  /** How many cells the mark takes over: a body that fills the field exactly makes room for it. */
  function CutCells(n: nat, base: nat, width: nat, f: Flags): nat {
    if f.precision || n != width then 0 else if base == 16 && n > 1 then 2 else 1
  }

  lemma BodyIsPrefixed(ds: string, base: nat, prec: nat, width: nat, f: Flags)
    requires Markable(ds, base, prec, f)
    ensures Body(ds, false, base, prec, width, f) ==
            Prefixed(ZeroPadded(ds, prec, width, f), base, prec, width, f)
  {
    hide ZeroPadded, Prefixed;
  }

  lemma BodyLength(ds: string, base: nat, prec: nat, width: nat, f: Flags)
    requires Markable(ds, base, prec, f)
    ensures var n := DigitCells(|ds|, prec, width, f);
            var cut := CutCells(n, base, width, f);
            cut <= n &&
            |Body(ds, false, base, prec, width, f)| == Min(BUFFER_SIZE, n - cut + MarkSize(base))
  {
    hide ZeroPadded, Body;
    BodyIsPrefixed(ds, base, prec, width, f);
    ZeroPaddedIs(ds, prec, width, f);
  }

  /** Digits, zeros and the mark from the least significant end read as a marked number. */
  lemma ReadsMarked(ds: string, base: nat, zeros: nat, f: Flags)
    ensures Reversed(ds + Repeat('0', zeros) + Reversed(Mark(base, f.upper))) == Marked(ds, base, zeros, f)
  {
    hide Reversed, Repeat, Mark;
    var z, m := Repeat('0', zeros), Mark(base, f.upper);
    ReversedConcat(ds + z, Reversed(m));
    ReversedConcat(ds, z);
    ReversedZeros(zeros);
    ReversedTwice(m);
  }

  lemma ReversedTwice(m: string)
    requires |m| <= 2
    ensures Reversed(Reversed(m)) == m
  {
    hide Reversed;
    forall i | 0 <= i < |m| ensures Reversed(Reversed(m))[i] == m[i] {
      ReversedAt(Reversed(m), i);
      ReversedAt(m, |m| - 1 - i);
    }
  }

  /** With room for it, the mark follows what is kept of the digits and zeros. */
  lemma PrefixedIs(s: string, base: nat, prec: nat, width: nat, f: Flags)
    requires 1 <= |s| <= BUFFER_SIZE && f.hash && (!f.precision ==> prec == 0) && (base == 8 || base == 16)
    requires |s| - CutCells(|s|, base, width, f) + MarkSize(base) <= BUFFER_SIZE
    ensures Prefixed(s, base, prec, width, f) ==
            s[..|s| - CutCells(|s|, base, width, f)] + Reversed(Mark(base, f.upper))
  {
    MarkReversed(base, f.upper);
    hide Reversed;
    var kept := s[..|s| - CutCells(|s|, base, width, f)];
    assert base == 16 ==> kept + [Mark(base, f.upper)[1]] + "0" == kept + ([Mark(base, f.upper)[1]] + "0");
  }

  lemma MarkReversed(base: nat, upper: bool)
    ensures Reversed(Mark(base, upper)) == if base == 16 then (if upper then "X0" else "x0") else "0"
  {
  }

  /** The number that the engine shows when the mark costs no digit and fits the buffer. */
  lemma ShownMarked(ds: string, base: nat, prec: nat, width: nat, f: Flags)
    requires Markable(ds, base, prec, f)
    requires var n := DigitCells(|ds|, prec, width, f);
             var cut := CutCells(n, base, width, f);
             |ds| <= n - cut <= BUFFER_SIZE - MarkSize(base)
    ensures var n := DigitCells(|ds|, prec, width, f);
            Field(ds, false, base, prec, width, f) ==
            Arranged(Marked(ds, base, n - CutCells(n, base, width, f) - |ds|, f), width, f)
  {
    hide ZeroPadded, Body, Prefixed, Reversed, Mark, Repeat, Arranged;
    var n := DigitCells(|ds|, prec, width, f);
    var kept := n - CutCells(n, base, width, f);
    BodyIsPrefixed(ds, base, prec, width, f);
    ZeroPaddedIs(ds, prec, width, f);
    PrefixedIs(ZeroPadded(ds, prec, width, f), base, prec, width, f);
    CutZeros(ds, n, kept);
    ReadsMarked(ds, base, kept - |ds|, f);
  }

  lemma CutZeros(ds: string, n: nat, kept: nat)
    requires |ds| <= kept <= n
    ensures (ds + Repeat('0', n - |ds|))[..kept] == ds + Repeat('0', kept - |ds|)
  {
  }

  lemma MarkedSame(ds: string, base: nat, a: int, b: int, f: Flags)
    requires Max(0, a) == Max(0, b)
    ensures Marked(ds, base, a, f) == Marked(ds, base, b, f)
  {
  }

  /** An octal precision that fills the buffer leads with a zero already. */
  lemma FullOctal(ds: string, prec: nat, width: nat, f: Flags)
    requires Markable(ds, 8, prec, f) && !f.left && f.precision && prec == BUFFER_SIZE
    ensures Field(ds, false, 8, prec, width, f) == Arranged(Marked(ds, 8, prec - |ds| - 1, f), width, f)
  {
    hide ZeroPadded, Reversed, Repeat, Arranged;
    BodyIsPrefixed(ds, 8, prec, width, f);
    ZeroPaddedIs(ds, prec, width, f);
    var s := ZeroPadded(ds, prec, width, f);
    assert s[..|s| - 0] == s && Prefixed(s, 8, prec, width, f) == s;
    OneZeroMore(prec - |ds|);
    Associates3(ds, Repeat('0', prec - |ds| - 1), "0");
    MarkReversed(8, f.upper);
    ReadsMarked(ds, 8, prec - |ds| - 1, f);
  }

  lemma AlternateHolds(ds: string, base: nat, prec: nat, width: nat, f: Flags)
    requires Markable(ds, base, prec, f) && AlternateConforms(|ds|, base, prec, width, f)
    ensures Field(ds, false, base, prec, width, f) == AlternateField(ds, base, prec, width, f)
  {
    hide Field, AlternateField, Marked, Arranged;
    AlternateIs(ds, base, prec, width, f);
    if base == 8 && !f.left && f.precision && prec == BUFFER_SIZE {
      FullOctal(ds, prec, width, f);
    } else {
      ShownMarked(ds, base, prec, width, f);
      var n := DigitCells(|ds|, prec, width, f);
      MarkedSame(ds, base, n - CutCells(n, base, width, f) - |ds|, MarkedZeros(|ds|, base, prec, width, f), f);
    }
  }

  // ----- the failing directives, all of them -----

  /** Right-justified texts of different lengths differ where the longer one begins. */
  lemma JustifiedDiffers(a: string, b: string, width: nat, f: Flags)
    requires !f.left && !f.zeropad && |a| < |b| && b[0] == '0'
    ensures Arranged(a, width, f) != Arranged(b, width, f)
  {
    if width >= |b| {
      var k := width - |b|;
      assert Arranged(a, width, f)[k] == ' ' && Arranged(b, width, f)[k] == '0';
    }
  }

  lemma ArrangedLength(text: string, width: nat, f: Flags)
    ensures |Arranged(text, width, f)| == if f.zeropad && !f.left then |text| else Max(width, |text|)
  {
  }

  /** With '-' the precision is ignored: the first digit stands where the standard has a zero. */
  lemma LeftZeros(ds: string, base: nat, prec: nat, width: nat, f: Flags)
    requires Markable(ds, base, prec, f) && f.left && f.precision && MarkedZeros(|ds|, base, prec, width, f) > 0
    ensures Field(ds, false, base, prec, width, f) != AlternateField(ds, base, prec, width, f)
  {
    hide Field, AlternateField, Reversed, Mark;
    AlternateIs(ds, base, prec, width, f);
    ShownMarked(ds, base, prec, width, f);
    ReversedAt(ds, 0);
    var h := |Mark(base, f.upper)|;
    assert AlternateField(ds, base, prec, width, f)[h] == '0';
    assert Field(ds, false, base, prec, width, f)[h] == ds[|ds| - 1];
  }

  lemma LongerOctal(ds: string, prec: nat, width: nat, f: Flags)
    requires Markable(ds, 8, prec, f) && !f.left && f.precision && |ds| < prec < BUFFER_SIZE
    ensures Field(ds, false, 8, prec, width, f) != AlternateField(ds, 8, prec, width, f)
  {
    hide Field, AlternateField, Arranged;
    AlternateIs(ds, 8, prec, width, f);
    ShownMarked(ds, 8, prec, width, f);
    JustifiedDiffers(Marked(ds, 8, prec - |ds| - 1, f), Marked(ds, 8, prec - |ds|, f), width, f);
  }

  lemma AlternateDiffers(ds: string, base: nat, prec: nat, width: nat, f: Flags)
    requires Markable(ds, base, prec, f) && !AlternateConforms(|ds|, base, prec, width, f)
    ensures Field(ds, false, base, prec, width, f) != AlternateField(ds, base, prec, width, f)
  {
    hide Body, AlternateField, Arranged, Reversed, Mark;
    var text := Marked(ds, base, MarkedZeros(|ds|, base, prec, width, f), f);
    var body := Body(ds, false, base, prec, width, f);
    MarkLength(base, f.upper);
    AlternateIs(ds, base, prec, width, f);
    BodyLength(ds, base, prec, width, f);
    ArrangedLength(text, width, f);
    ArrangedLength(Reversed(body), width, f);
    if f.left && f.precision {
      LeftZeros(ds, base, prec, width, f);
    } else if base == 8 && f.precision && prec < BUFFER_SIZE {
      LongerOctal(ds, prec, width, f);
    } else if f.precision {
      JustifiedDiffers(Reversed(body), text, width, f);
    }
  }

  lemma MarkLength(base: nat, upper: bool)
    ensures |Mark(base, upper)| == MarkSize(base)
  {
  }

  /** With '#', a value other than zero is printed as the standard asks exactly if it conforms. */
  lemma AlternateExactly(ds: string, base: nat, prec: nat, width: nat, f: Flags)
    requires Markable(ds, base, prec, f)
    ensures Field(ds, false, base, prec, width, f) == AlternateField(ds, base, prec, width, f) <==>
            AlternateConforms(|ds|, base, prec, width, f)
  {
    hide Field, AlternateField, AlternateConforms, Markable;
    if AlternateConforms(|ds|, base, prec, width, f) {
      AlternateHolds(ds, base, prec, width, f);
    } else {
      AlternateDiffers(ds, base, prec, width, f);
    }
  }
}
