/**
 * Digit generation and reading in api/keystone/vsnprintf.c: the do-while of
 * _ntoa_long and _ntoa_long_long, which fills a 32-byte scratch buffer with the
 * least significant digit first, and _atoi.
 */
module Numerals {
  import opened Basics

  const BUFFER_SIZE := 32

  predicate IsDigit(c: char) { '0' <= c <= '9' }

  function DigitChar(d: nat, upper: bool): (c: char)
    requires d < 16
    ensures DigitValue(c) == d && (IsDigit(c) <==> d < 10) && (c == '0' <==> d == 0) && c != ' '
  {
    if d < 10 then '0' + d as char else (if upper then 'A' else 'a') + (d - 10) as char
  }

  function DigitValue(c: char): nat {
    if IsDigit(c) then (c - '0') as nat
    else if 'a' <= c <= 'f' then 10 + (c - 'a') as nat
    else if 'A' <= c <= 'F' then 10 + (c - 'A') as nat
    else 0
  }

  function Power(base: nat, n: nat): (p: nat)
    ensures base >= 1 ==> p >= 1
  {
    if n == 0 then 1 else base * Power(base, n - 1)
  }

  /** The lowest digit of a value, and the value of those above it. */
  function Rem(value: nat, base: nat): (r: nat)
    requires base > 0
    ensures r < base
  {
    value % base
  }

  function Quot(value: nat, base: nat): nat
    requires base > 0
  {
    value / base
  }

  /** The digits that the do-while leaves when `room` cells are free: at least one, at most `room`. */
  function Digits(value: nat, base: nat, upper: bool, room: nat): (ds: seq<char>)
    requires 2 <= base <= 16 && room >= 1
    ensures 1 <= |ds| <= room
    decreases room
  {
    [DigitChar(Rem(value, base), upper)] +
    if Quot(value, base) != 0 && room > 1 then Digits(Quot(value, base), base, upper, room - 1) else []
  }

  /** The number that digits denote, least significant first. */
  function Horner(ds: seq<char>, base: nat): nat {
    if ds == [] then 0 else DigitValue(ds[0]) + base * Horner(ds[1..], base)
  }

  /** The number that a numeral denotes as it is read, most significant digit first. */
  function Numeral(s: seq<char>, base: nat): nat {
    if s == [] then 0 else Numeral(s[..|s| - 1], base) * base + DigitValue(s[|s| - 1])
  }

  function Reversed(s: seq<char>): (r: seq<char>)
    ensures |r| == |s|
  {
    if s == [] then [] else Reversed(s[1..]) + [s[0]]
  }

  lemma {:induction false} ReversedAt(s: seq<char>, i: nat)
    requires i < |s|
    ensures Reversed(s)[i] == s[|s| - 1 - i]
  {
    if i < |s| - 1 { ReversedAt(s[1..], i); }
  }

  function Repeat(c: char, n: int): (s: seq<char>)
    ensures |s| == if n > 0 then n else 0
  {
    seq(if n > 0 then n else 0, _ => c)
  }

  // ----- arithmetic -----

  lemma DivMod(x: nat, base: nat)
    requires base > 0
    ensures x == base * Quot(x, base) + Rem(x, base)
  {
  }

  /** Splitting off the lowest digit: (base * q + r) mod (base * p) == base * (q mod p) + r. */
  lemma ModSplit(base: nat, p: nat, q: nat, r: nat)
    requires base > 0 && p > 0 && r < base
    ensures (base * q + r) % (base * p) == base * (q % p) + r
  {
    DivMod(q, p);
    var k, m := Quot(q, p), Rem(q, p);
    Distributes(base, p * k, m);
    Associates(base, p, k);
    DigitBelow(base, p, m, r);
    ModUnique(base * q + r, base * p, k, base * m + r);
  }

  lemma Distributes(x: nat, y: nat, z: nat)
    ensures x * (y + z) == x * y + x * z
  {
  }

  lemma DigitBelow(base: nat, p: nat, m: nat, r: nat)
    requires m < p && r < base
    ensures base * m + r < base * p
  {
    Distributes(base, m, p - m);
    assert base * (p - m) >= base;
  }

  lemma {:induction false} PowerSum(base: nat, m: nat, n: nat)
    ensures Power(base, m + n) == Power(base, m) * Power(base, n)
  {
    if m > 0 {
      PowerSum(base, m - 1, n);
      Associates(base, Power(base, m - 1), Power(base, n));
      assert Power(base, m + n) == base * Power(base, m - 1 + n);
    }
  }

  lemma Associates(x: nat, y: nat, z: nat)
    ensures x * (y * z) == x * y * z
  {
  }

  // ----- what the digits denote -----

  lemma HornerCons(d: char, ds: seq<char>, base: nat)
    ensures Horner([d] + ds, base) == DigitValue(d) + base * Horner(ds, base)
  {
    assert ([d] + ds)[1..] == ds;
  }

  /** The scratch digits denote the value modulo base^room, hence the value itself if it is smaller. */
  lemma {:induction false} DigitsDenote(value: nat, base: nat, upper: bool, room: nat)
    requires 2 <= base <= 16 && room >= 1
    ensures Horner(Digits(value, base, upper, room), base) == value % Power(base, room)
    ensures value < Power(base, room) ==> Horner(Digits(value, base, upper, room), base) == value
    decreases room
  {
    hide Horner, Digits, Power;
    var q, r := Quot(value, base), Rem(value, base);
    ModDigit(value, base, room);
    DigitsUnfold(value, base, upper, room);
    if q != 0 && room > 1 {
      DigitsDenote(q, base, upper, room - 1);
      HornerCons(DigitChar(r, upper), Digits(q, base, upper, room - 1), base);
    } else {
      HornerOne(DigitChar(r, upper), base);
      LastDigit(q, base, room);
    }
    if value < Power(base, room) { ModUnique(value, Power(base, room), 0, value); }
  }

  /** The remainder modulo base^room, one digit at a time. */
  lemma ModDigit(value: nat, base: nat, room: nat)
    requires base >= 2 && room >= 1
    ensures value % Power(base, room) == base * (Quot(value, base) % Power(base, room - 1)) + Rem(value, base)
  {
    DivMod(value, base);
    ModSplit(base, Power(base, room - 1), Quot(value, base), Rem(value, base));
  }

  /** With no higher digit, or no room for one, nothing but the lowest digit counts. */
  lemma LastDigit(q: nat, base: nat, room: nat)
    requires base >= 2 && room >= 1 && (q == 0 || room == 1)
    ensures base * (q % Power(base, room - 1)) == 0
  {
    var p := Power(base, room - 1);
    if q == 0 { ModUnique(0, p, 0, 0); } else { assert p == 1; }
  }

  lemma HornerOne(d: char, base: nat)
    ensures Horner([d] + [], base) == DigitValue(d)
  {
    HornerCons(d, [], base);
  }

  lemma DigitsUnfold(value: nat, base: nat, upper: bool, room: nat)
    requires 2 <= base <= 16 && room >= 1
    ensures Digits(value, base, upper, room) ==
            [DigitChar(Rem(value, base), upper)] +
            if Quot(value, base) != 0 && room > 1 then Digits(Quot(value, base), base, upper, room - 1) else []
  {
  }

  /** A value below base^k needs at most `k` digits. */
  lemma {:induction false} DigitsLength(value: nat, base: nat, upper: bool, room: nat, k: nat)
    requires 2 <= base <= 16 && 1 <= k <= room && value < Power(base, k)
    ensures |Digits(value, base, upper, room)| <= k
    decreases k
  {
    DivMod(value, base);
    var q := Quot(value, base);
    if q != 0 && room > 1 {
      QuotientBound(value, base, k);
      DigitsLength(q, base, upper, room - 1, k - 1);
    }
  }

  /** The most significant digit is zero only for the value zero. */
  lemma {:induction false} TopDigit(value: nat, base: nat, upper: bool, room: nat)
    requires 2 <= base <= 16 && room >= 1 && value < Power(base, room)
    ensures var ds := Digits(value, base, upper, room);
            (ds[|ds| - 1] == '0' <==> value == 0) && ds[|ds| - 1] != ' '
    decreases room
  {
    DivMod(value, base);
    var q := Quot(value, base);
    assert value == 0 ==> q == 0;
    if q != 0 {
      assert room > 1 && q < Power(base, room - 1) by { QuotientBound(value, base, room); }
      TopDigit(q, base, upper, room - 1);
    }
  }

  lemma QuotientBound(value: nat, base: nat, room: nat)
    requires base >= 2 && room >= 1 && value < Power(base, room) && Quot(value, base) != 0
    ensures room > 1 && Quot(value, base) < Power(base, room - 1)
  {
    DivMod(value, base);
    var q, p := Quot(value, base), Power(base, room - 1);
    assert q >= p ==> base * q >= base * p;
  }

  /** 64-bit values fit the scratch buffer in bases 8, 10 and 16; 32-bit values fit it in base 2. */
  lemma ScratchSuffices()
    ensures Power(8, 22) >= 0x1_0000_0000_0000_0000
    ensures Power(10, 20) >= 0x1_0000_0000_0000_0000
    ensures Power(16, 16) >= 0x1_0000_0000_0000_0000
    ensures Power(2, 32) >= UINT_RANGE
  {
    PowersOfTen();
    PowersOfTwo();
  }

  lemma PowersOfTen()
    ensures Power(10, 10) == 10_000_000_000 && Power(10, 20) == 100_000_000_000_000_000_000
  {
    assert Power(10, 5) == 100_000;
    PowerSum(10, 5, 5);
    PowerSum(10, 10, 10);
  }

  lemma PowersOfTwo()
    ensures Power(8, 22) == 0x4_0000_0000_0000_0000 && Power(16, 16) == 0x1_0000_0000_0000_0000
    ensures Power(2, 32) == UINT_RANGE
  {
    assert Power(8, 5) == 0x8000 && Power(8, 1) == 8;
    PowerSum(8, 5, 5);
    PowerSum(8, 10, 10);
    PowerSum(8, 20, 1);
    PowerSum(8, 21, 1);
    assert Power(16, 4) == 0x1_0000;
    PowerSum(16, 4, 4);
    PowerSum(16, 8, 8);
    assert Power(2, 4) == 16;
    PowerSum(2, 4, 4);
    PowerSum(2, 8, 8);
    PowerSum(2, 16, 16);
  }

  // ----- reading -----

  lemma NumeralSnoc(s: string, c: char, base: nat)
    ensures Numeral(s + [c], base) == DigitValue(c) + base * Numeral(s, base)
  {
    assert (s + [c])[..|s|] == s;
    Commutes(Numeral(s, base), base);
  }

  lemma Commutes(x: nat, y: nat)
    ensures x * y == y * x
  {
  }

  lemma {:induction false} ReversedNumeral(ds: seq<char>, base: nat)
    ensures Numeral(Reversed(ds), base) == Horner(ds, base)
  {
    hide Numeral, DigitValue, Horner;
    if ds == [] {
      NumeralNone(Reversed(ds), base);
      HornerNone(base);
    } else {
      ReversedNumeral(ds[1..], base);
      NumeralSnoc(Reversed(ds[1..]), ds[0], base);
      assert ds == [ds[0]] + ds[1..];
      HornerCons(ds[0], ds[1..], base);
    }
  }

  lemma {:induction false} PaddingIsSilent(ds: seq<char>, n: nat, base: nat)
    ensures Horner(ds + Repeat('0', n), base) == Horner(ds, base)
    decreases |ds|, n
  {
    if ds != [] {
      assert (ds + Repeat('0', n))[1..] == ds[1..] + Repeat('0', n);
      PaddingIsSilent(ds[1..], n, base);
    } else if n > 0 {
      assert ds + Repeat('0', n) == Repeat('0', n) && Repeat('0', n)[1..] == ds + Repeat('0', n - 1);
      PaddingIsSilent(ds, n - 1, base);
    }
  }

  /** The number of decimal digits at the front of a string. */
  function DigitRun(s: string): (n: nat)
    ensures n <= |s| && (forall i :: 0 <= i < n ==> IsDigit(s[i])) && (n < |s| ==> !IsDigit(s[n]))
  {
    if s == [] || !IsDigit(s[0]) then 0 else 1 + DigitRun(s[1..])
  }

  lemma {:induction false} DigitRunUnique(s: string, n: nat)
    requires n <= |s| && (forall i :: 0 <= i < n ==> IsDigit(s[i])) && (n < |s| ==> !IsDigit(s[n]))
    ensures DigitRun(s) == n
  {
    if n > 0 { DigitRunUnique(s[1..], n - 1); }
  }

  /** The unsigned int that _atoi reads from the front of a string. */
  function Read(s: string): nat { Numeral(s[..DigitRun(s)], 10) % UINT_RANGE }

  lemma WrappedStep(x: nat, d: nat)
    ensures ((x % UINT_RANGE) * 10 + d) % UINT_RANGE == (x * 10 + d) % UINT_RANGE
  {
  }

  lemma NumeralNext(s: string, at: nat, next: nat)
    requires at <= next < |s|
    ensures Numeral(s[at..next + 1], 10) == Numeral(s[at..next], 10) * 10 + DigitValue(s[next])
  {
    hide DigitValue;
    var t := s[at..next + 1];
    assert t[..|t| - 1] == s[at..next] && t[|t| - 1] == s[next];
  }

  lemma ReadIs(s: string, at: nat, next: nat)
    requires at <= next <= |s| && (forall k :: at <= k < next ==> IsDigit(s[k])) && (next < |s| ==> !IsDigit(s[next]))
    ensures DigitRun(s[at..]) == next - at && Read(s[at..]) == Numeral(s[at..next], 10) % UINT_RANGE
  {
    hide Numeral, DigitRun, IsDigit;
    DigitRunUnique(s[at..], next - at);
    assert s[at..][..next - at] == s[at..next];
  }

  /** _atoi: `at` is where the format pointer stands, before and after. */
  method Atoi(s: string, at: nat) returns (i: nat, next: nat)
    requires at <= |s|
    ensures next == at + DigitRun(s[at..]) && i == Read(s[at..])
  {
    hide Numeral, DigitRun, IsDigit, Read, DigitValue;
    i, next := 0, at;
    NumeralNone(s[at..next], 10);
    while next < |s| && IsDigit(s[next])
      invariant at <= next <= |s| && forall k :: at <= k < next ==> IsDigit(s[k])
      invariant i == Numeral(s[at..next], 10) % UINT_RANGE
    {
      WrappedStep(Numeral(s[at..next], 10), DigitValue(s[next]));
      NumeralNext(s, at, next);
      i := (i * 10 + DigitValue(s[next])) % UINT_RANGE;
      next := next + 1;
    }
    ReadIs(s, at, next);
  }

  lemma NumeralNone(s: string, base: nat)
    requires s == []
    ensures Numeral(s, base) == 0
  {
  }

  lemma HornerNone(base: nat)
    ensures Horner([], base) == 0
  {
  }

  // ----- the scratch buffer -----

  /** The do-while that _ntoa_long and _ntoa_long_long share. */
  method GenerateDigits(value: nat, base: nat, upper: bool, buf: array<char>) returns (len: nat)
    requires 2 <= base <= 16 && buf.Length == BUFFER_SIZE
    modifies buf
    ensures len <= BUFFER_SIZE && buf[..len] == Digits(value, base, upper, BUFFER_SIZE)
  {
    hide Digits, DigitChar;
    len := 0;
    var v: nat, more := value, true;
    ghost var all := Digits(value, base, upper, BUFFER_SIZE);
    while more
      invariant len <= BUFFER_SIZE && len <= |all| && (more ==> len < BUFFER_SIZE)
      invariant forall k :: 0 <= k < len ==> buf[k] == all[k]
      invariant if more then all[len..] == Digits(v, base, upper, BUFFER_SIZE - len) else len == |all|
      decreases BUFFER_SIZE - len, more
    {
      NextDigit(all, len, v, base, upper);
      var digit, quotient := Split(v, base);
      buf[len] := DigitChar(digit, upper);
      len, v := len + 1, quotient;
      more := v != 0 && len < BUFFER_SIZE;
    }
  }

  /** The digit at `len` is the lowest one of `v`, and the rest are those of the quotient. */
  lemma NextDigit(all: string, len: nat, v: nat, base: nat, upper: bool)
    requires 2 <= base <= 16 && len < BUFFER_SIZE && len <= |all|
    requires all[len..] == Digits(v, base, upper, BUFFER_SIZE - len)
    ensures len < |all| && all[len] == DigitChar(Rem(v, base), upper)
    ensures if Quot(v, base) != 0 && len + 1 < BUFFER_SIZE
            then all[len + 1..] == Digits(Quot(v, base), base, upper, BUFFER_SIZE - len - 1) else len + 1 == |all|
  {
    hide Digits, DigitChar;
    DigitsUnfold(v, base, upper, BUFFER_SIZE - len);
    assert all[len] == all[len..][0] && all[len + 1..] == all[len..][1..];
  }

  method Split(v: nat, base: nat) returns (digit: nat, quotient: nat)
    requires base > 0
    ensures digit == Rem(v, base) && quotient == Quot(v, base)
  {
    digit, quotient := v % base, v / base;
  }
}
