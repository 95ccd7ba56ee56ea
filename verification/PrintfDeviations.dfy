/**
 * Formats whose output is not that of ISO C11, one for each way in which an
 * integer directive can fail to follow it.
 */
module PrintfDeviations {
  import opened Basics
  import opened Numerals
  import opened IntegerField
  import opened Directives
  import opened PrintfText
  import opened IsoPrintf

  /** A format that is one directive and nothing else. */
  lemma Alone(s: string, d: Directive, va: seq<Slot>)
    requires Parse(s) == d && |d.rest| == 1 && d.rest[0] != 'f' && d.rest[0] != 'F'
    ensures Supported("%" + s) && Render("%" + s, va) == Expanded(d, va).0
  {
    hide Parse, Expanded;
    var fmt := "%" + s;
    assert fmt[1..] == s && d.rest[1..] == [];
    assert Render(fmt, va) == Expanded(d, va).0 + [];
  }

  lemma SmallNumbers()
    ensures Digits(255, 10, false, BUFFER_SIZE) == "552" && Digits(100, 10, false, BUFFER_SIZE) == "001"
    ensures Digits(42, 10, false, BUFFER_SIZE) == "24"
  {
  }

  lemma SmallIso()
    ensures IsoDigits(1, 10, false) == "1" && IsoDigits(100, 10, false) == "100"
    ensures IsoDigits(42, 10, false) == "42" && IsoDigits(0, 10, false) == "0"
  {
  }

  lemma Reversals()
    ensures Reversed("552") == "255" && Reversed("001") == "100" && Reversed("24") == "42" && Reversed("") == ""
  {
  }

  const MINUS_ONE := Slot(UINT_RANGE - 1, "")

  /** A format whose text is `text` where the standard asks for `wanted`. */
  ghost predicate Deviates(s: string, va: seq<Slot>, text: string, wanted: string) {
    && Supported("%" + s) && Parse(s).rest != []
    && Render("%" + s, va) == text && IsoText(Parse(s), va) == wanted && text != wanted
  }

  lemma Shown(s: string, d: Directive, va: seq<Slot>, text: string, wanted: string)
    requires Parse(s) == d && |d.rest| == 1 && d.rest[0] != 'f' && d.rest[0] != 'F'
    requires Expanded(d, va).0 == text && IsoText(d, va) == wanted && text != wanted
    ensures Deviates(s, va, text, wanted)
  {
    hide Parse, Expanded, IsoText;
    Alone(s, d, va);
  }

  // ----- %hhd of -1 prints 255 -----

  const BYTE := Directive(NO_FLAGS, Absent, Absent, CharSize, "d")

  lemma ByteScanned()
    ensures Parse("hhd") == BYTE
  {
    hide Parse;
    ParseRoundTrip("", Absent, Absent, HH, "d");
    assert "" + (SpelledWidth(Absent) + (SpelledPrecision(Absent) + (HH.Spelled() + "d"))) == "hhd";
  }

  /** Digits without a sign or zeros are laid out as they are. */
  lemma BareField(ds: string, width: nat, f: Flags)
    requires |ds| <= BUFFER_SIZE && !f.hash && !f.plus && !f.space && !f.zeropad
    ensures Field(ds, false, 10, 0, width, f) == Arranged(Reversed(ds), width, f)
  {
    hide Field, Arranged, Reversed;
    ShownField(ds, false, 10, 0, width, f);
    assert "" + Repeat('0', 0) + Reversed(ds) == Reversed(ds);
  }

  lemma ByteText()
    ensures Expanded(BYTE, [MINUS_ONE]).0 == "255"
  {
    hide Digits, Reversed, Field;
    SmallNumbers();
    Reversals();
    assert SignedValue(CharSize, MINUS_ONE) == 255;
    BareField("552", 0, NO_FLAGS);
  }

  lemma ByteIso()
    ensures IsoText(BYTE, [MINUS_ONE]) == "-1"
  {
    hide IsoDigits;
    SmallIso();
    assert IsoValue('d', CharSize, MINUS_ONE) == -1;
  }

  lemma NegativeByte()
    ensures Deviates("hhd", [MINUS_ONE], "255", "-1")
  {
    hide Parse, Expanded, IsoText, Deviates;
    ByteScanned();
    ByteText();
    ByteIso();
    Shown("hhd", BYTE, [MINUS_ONE], "255", "-1");
  }

  // ----- %+3d of 100 prints +00 -----

  const PLUS := NO_FLAGS.(plus := true)
  const FULL := Directive(PLUS, Number(3), Absent, IntSize, "d")
  const HUNDRED := Slot(100, "")

  lemma FullScanned()
    ensures Parse("+3d") == FULL
  {
  }

  lemma FullText()
    ensures Expanded(FULL, [HUNDRED]).0 == "+00"
  {
    hide Digits, Reversed, Field;
    SmallNumbers();
    Reversals();
    assert SignedValue(IntSize, HUNDRED) == 100;
    DropsTopDigit("001", false, 10, 0, 3, PLUS);
  }

  lemma FullIso()
    ensures IsoText(FULL, [HUNDRED]) == "+100"
  {
    hide IsoDigits;
    SmallIso();
    assert IsoValue('d', IntSize, HUNDRED) == 100;
  }

  lemma SignOverDigit()
    ensures Deviates("+3d", [HUNDRED], "+00", "+100")
  {
    hide Parse, Expanded, IsoText, Deviates;
    FullScanned();
    FullText();
    FullIso();
    Shown("+3d", FULL, [HUNDRED], "+00", "+100");
  }

  // ----- %.*d of -1 and 0 prints nothing -----

  const POINT := NO_FLAGS.(precision := true)
  const STARRED := Directive(POINT, Absent, Star, IntSize, "d")
  const NOTHING := [MINUS_ONE, Slot(0, "")]

  lemma StarredScanned()
    ensures Parse(".*d") == STARRED
  {
  }

  lemma StarredText()
    ensures Expanded(STARRED, NOTHING).0 == ""
  {
    hide Digits, Reversed, Field;
    Reversals();
    assert SignedValue(IntSize, Slot(0, "")) == 0;
    BareField("", 0, POINT);
  }

  lemma StarredIso()
    ensures IsoText(STARRED, NOTHING) == "0"
  {
    hide IsoDigits;
    SmallIso();
    assert AsInt(MINUS_ONE) == -1 && IsoValue('d', IntSize, Slot(0, "")) == 0;
  }

  lemma LostZero()
    ensures Deviates(".*d", NOTHING, "", "0")
  {
    hide Parse, Expanded, IsoText, Deviates;
    StarredScanned();
    StarredText();
    StarredIso();
    Shown(".*d", STARRED, NOTHING, "", "0");
  }

  // ----- %05.*d of -1 and 42 pads with spaces -----

  const FILLED := Directive(POINT.(zeropad := true), Number(5), Star, IntSize, "d")
  const ANSWER := [MINUS_ONE, Slot(42, "")]

  lemma FilledScanned()
    ensures Parse("05.*d") == FILLED
  {
  }

  lemma FilledText()
    ensures Expanded(FILLED, ANSWER).0 == "   42"
  {
    hide Digits, Reversed, Field;
    SmallNumbers();
    Reversals();
    assert SignedValue(IntSize, Slot(42, "")) == 42;
    BareField("24", 5, POINT);
  }

  lemma FilledIso()
    ensures IsoText(FILLED, ANSWER) == "00042"
  {
    hide IsoDigits;
    SmallIso();
    assert AsInt(MINUS_ONE) == -1 && IsoValue('d', IntSize, Slot(42, "")) == 42;
  }

  lemma LostPadding()
    ensures Deviates("05.*d", ANSWER, "   42", "00042")
  {
    hide Parse, Expanded, IsoText, Deviates;
    FilledScanned();
    FilledText();
    FilledIso();
    Shown("05.*d", FILLED, ANSWER, "   42", "00042");
  }

  // ----- %#4x of 0x1234 prints 0x34 -----

  const HASH := NO_FLAGS.(hash := true)
  const PREFIXED := Directive(HASH, Number(4), Absent, IntSize, "x")
  const WORD := Slot(0x1234, "")

  lemma PrefixedScanned()
    ensures Parse("#4x") == PREFIXED
  {
  }

  lemma HexNumbers()
    ensures Digits(0x1234, 16, false, BUFFER_SIZE) == "4321" && IsoDigits(0x1234, 16, false) == "1234"
    ensures Reversed("43x0") == "0x34"
  {
  }

  lemma PrefixedField()
    ensures Field("4321", false, 16, 0, 4, HASH) == "0x34"
  {
    hide Reversed;
    HexNumbers();
    assert ZeroPadded("4321", 0, 4, HASH) == "4321" && "4321"[..2] == "43";
    assert Body("4321", false, 16, 0, 4, HASH) == "43x0";
  }

  lemma PrefixedText()
    ensures Expanded(PREFIXED, [WORD]).0 == "0x34"
  {
    hide Digits, Reversed, Field;
    HexNumbers();
    PrefixedField();
    assert UnsignedValue(IntSize, WORD) == 0x1234;
    assert HASH.(hash := HASH.hash && 0x1234 != 0) == HASH;
  }

  lemma PrefixedIso()
    ensures IsoText(PREFIXED, [WORD]) == "0x1234"
  {
    hide IsoDigits, Digits;
    HexNumbers();
    assert IsoValue('x', IntSize, WORD) == 0x1234;
  }

  lemma PrefixOverDigits()
    ensures Deviates("#4x", [WORD], "0x34", "0x1234")
  {
    hide Parse, Expanded, IsoText, Deviates;
    PrefixedScanned();
    PrefixedText();
    PrefixedIso();
    Shown("#4x", PREFIXED, [WORD], "0x34", "0x1234");
  }
}
