/**
 * What %c, %s, %p, %b and %% show, position by position.
 */
module PrintfFields {
  import opened Basics
  import opened Numerals
  import opened IntegerField
  import opened AlternateForm
  import opened Directives
  import opened PrintfText
  import opened PrintfTheorems
  import opened IsoPrintf

  /** Text in a field: `shown` at its left or right end and spaces in the rest. */
  ghost predicate Holds(field: string, shown: string, width: nat, left: bool) {
    && |field| == Max(width, |shown|)
    && forall k :: 0 <= k < |field| ==>
         var start := if left then 0 else |field| - |shown|;
         field[k] == if start <= k < start + |shown| then shown[k - start] else ' '
  }

  /** %c shows the low byte of its argument. */
  lemma CharShown(f: Flags, width: nat, prec: nat, size: Size, s: Slot)
    ensures Holds(Converted('c', f, width, prec, size, s), [(s.word % 256) as char], width, f.left)
  {
  }

  /** The length that the padding of %s counts: the string's as an unsigned int, up to the precision. */
  function Counted(f: Flags, prec: nat, length: nat): nat {
    if f.precision && prec < length % 0x1_0000_0000 then prec else length % 0x1_0000_0000
  }

  /**
   * %s shows the first characters of its string, as many as the precision admits, in a field of the
   * width exactly if the string is shorter than 2^32 characters or no padding is counted.
   */
  lemma StringShown(f: Flags, width: nat, prec: nat, size: Size, s: Slot)
    ensures var n := if f.precision then Min(|s.text|, prec) else |s.text|;
            Holds(Converted('s', f, width, prec, size, s), s.text[..n], width, f.left) <==>
            Counted(f, prec, |s.text|) == n || width <= Counted(f, prec, |s.text|)
    ensures |s.text| < 0x1_0000_0000 ==>
              Counted(f, prec, |s.text|) == if f.precision then Min(|s.text|, prec) else |s.text|
  {
    var n := if f.precision then Min(|s.text|, prec) else |s.text|;
    assert s.text[..|s.text|] == s.text;
    JustifiedHolds(s.text[..n], Counted(f, prec, |s.text|), width, f);
  }

  lemma JustifiedHolds(shown: string, l: nat, width: nat, f: Flags)
    requires l <= |shown|
    ensures Holds(Justified(shown, l, width, f), shown, width, f.left) <==> l == |shown| || width <= l
  {
    var field := Justified(shown, l, width, f);
    if l == |shown| || width <= l {
      assert Repeat(' ', width - l) == Repeat(' ', width - |shown|);
    } else {
      assert |field| != Max(width, |shown|);
    }
  }

  lemma PercentShown(f: Flags, width: nat, prec: nat, size: Size, s: Slot)
    ensures Converted('%', f, width, prec, size, s) == "%"
  {
  }

  predicate IsHex(c: char) { c in UPPER }

  /** %p shows the word as 16 upper-case hexadecimal digits, unless '-', '#' or a longer precision is given. */
  lemma PointerShown(f: Flags, width: nat, prec: nat, size: Size, s: Slot)
    requires !f.left && !f.hash && !f.plus && !f.space && prec <= 16
    ensures var text := Converted('p', f, width, prec, size, s);
            && |text| == 16 && Numeral(text, 16) == s.word % 0x1_0000_0000_0000_0000
            && forall k :: 0 <= k < 16 ==> IsHex(text[k])
  {
    hide ScratchDigits, Field, Reversed, Repeat, Numeral, Horner, Power;
    var g := f.(zeropad := true, upper := true);
    var v := s.word % ULONG_RANGE;
    var ds := ScratchDigits(v, 16, g);
    PointerDigits(v, g);
    PointerField(ds, prec, g);
    NumeralOfPadded(ds, 16 - |ds|, 16);
    assert g.(hash := g.hash && v != 0) == g;
    var text := Repeat('0', 16 - |ds|) + Reversed(ds);
    forall k | 0 <= k < 16 ensures IsHex(text[k]) { HexAt(ds, k); }
  }

  lemma PointerDigits(v: nat, g: Flags)
    requires v < ULONG_RANGE && g.upper
    ensures var ds := ScratchDigits(v, 16, g);
            |ds| <= 16 && Horner(ds, 16) == v && forall k :: 0 <= k < |ds| ==> IsHex(ds[k])
  {
    hide Power, Digits, Horner;
    ScratchDenotes('X', v, g);
    PowersOfTwo();
    DigitsLength(v, 16, true, BUFFER_SIZE, 16);
    HexDigits(v, BUFFER_SIZE);
  }

  lemma {:induction false} HexDigits(v: nat, room: nat)
    requires room >= 1
    ensures forall k :: 0 <= k < |Digits(v, 16, true, room)| ==> IsHex(Digits(v, 16, true, room)[k])
    decreases room
  {
    hide DigitChar;
    DigitIsIso(Rem(v, 16), true);
    if Quot(v, 16) != 0 && room > 1 { HexDigits(Quot(v, 16), room - 1); }
  }

  lemma PointerField(ds: string, prec: nat, g: Flags)
    requires |ds| <= 16 && g.zeropad && !g.left && !g.hash && !g.plus && !g.space && prec <= 16
    ensures Field(ds, false, 16, prec, 16, g) == Repeat('0', 16 - |ds|) + Reversed(ds)
  {
    hide Field, Reversed, Repeat, Arranged, KeptCells;
    var z := Repeat('0', 16 - |ds|);
    PointerCells(|ds|, prec, g);
    ShownField(ds, false, 16, prec, 16, g);
    NoLead(z);
    ZeroArranged(z + Reversed(ds), g);
  }

  lemma PointerCells(d: nat, prec: nat, g: Flags)
    requires d <= 16 && g.zeropad && !g.left && prec <= 16 && !g.plus && !g.space
    ensures Sign(false, g) == "" && KeptCells(d, "", prec, 16, g) == 16
  {
  }

  lemma ZeroArranged(text: string, g: Flags)
    requires g.zeropad && !g.left
    ensures Arranged(text, 16, g) == text
  {
  }

  lemma ZeroIsHex()
    ensures IsHex('0')
  {
    assert UPPER[0] == '0';
  }

  lemma HexAt(ds: string, k: nat)
    requires |ds| <= 16 && k < 16 && forall i :: 0 <= i < |ds| ==> IsHex(ds[i])
    ensures IsHex((Repeat('0', 16 - |ds|) + Reversed(ds))[k])
  {
    hide Reversed, IsHex;
    ZeroIsHex();
    if k >= 16 - |ds| { ReversedAt(ds, k - (16 - |ds|)); }
  }

  /** %b without '#' shows spaces and a binary numeral of the low 32 bits of its argument. */
  lemma BinaryShown(f: Flags, width: nat, prec: nat, size: Size, s: Slot)
    returns (before: nat, numeral: string, after: nat)
    requires !f.hash
    ensures Converted('b', f, width, prec, size, s) == Repeat(' ', before) + numeral + Repeat(' ', after)
    ensures Numeral(numeral, 2) == s.word % Range(size) % 0x1_0000_0000
  {
    hide Field, Horner, ScratchDigits, Numeral, Reversed, Repeat, UnsignedValue, IsoValue;
    var g, v := IntegerFlags('b', f), UnsignedValue(size, s);
    var ds := ScratchDigits(v, 2, g);
    BinaryKeepsLowBits(v, g);
    UnsignedIs(size, s);
    var zeros;
    before, zeros, after := KeepsSignAndDigits(ds, false, 2, prec, width, g);
    numeral := Repeat('0', zeros) + Reversed(ds);
    assert "" + Repeat('0', zeros) == Repeat('0', zeros);
    assert g.(hash := g.hash && v != 0) == g;
  }

  lemma UnsignedIs(size: Size, s: Slot)
    ensures UnsignedValue(size, s) == s.word % Range(size)
  {
  }
}
