/**
 * The printf engine of api/keystone/vsnprintf.c as it runs: a scratch buffer,
 * a format pointer and an `out` function, proved against PrintfText.
 */
module PrintfEngine {
  import opened Basics
  import opened Numerals
  import opened IntegerField
  import opened Directives
  import opened PrintfText

  /** _out_buffer, _out_null or _out_fct. */
  datatype Kind = ToBuffer | ToNull | ToFunction

  /** The `out` function with its buffer; `text` is everything emitted so far. */
  class Sink {
    const kind: Kind
    const cells: array<char>
    const maxlen: nat
    var received: string
    ghost var text: string
    ghost const initial: seq<char>
    /** The number of characters that the caller's buffer must be ready for. */
    ghost const limit: nat

    constructor (kind: Kind, cells: array<char>, maxlen: nat, ghost limit: nat)
      requires kind == ToBuffer ==> maxlen <= cells.Length || limit < cells.Length
      ensures Valid() && text == "" && fresh(this)
      ensures this.kind == kind && this.cells == cells && this.maxlen == maxlen && this.limit == limit
      ensures initial == cells[..]
    {
      this.kind, this.cells, this.maxlen, this.limit := kind, cells, maxlen, limit;
      received, text, initial := "", "", cells[..];
    }

    /** The buffer shows the text as far as `maxlen` allows and is otherwise untouched. */
    ghost predicate Valid()
      reads this, cells
    {
      && |initial| == cells.Length && |text| <= limit
      && (kind == ToBuffer ==> maxlen <= cells.Length || limit < cells.Length)
      && (forall k :: 0 <= k < cells.Length ==>
            cells[k] == if kind == ToBuffer && k < |text| && k < maxlen then text[k] else initial[k])
      && received == if kind == ToFunction then text else ""
    }

    /** out(character, buffer, idx, maxlen), at the next index. */
    method Out(c: char, idx: nat) returns (next: nat)
      requires Valid() && idx == |text| < limit
      modifies this, cells
      ensures Valid() && text == old(text) + [c] && next == |text|
    {
      match kind {
        case ToBuffer => if idx < maxlen { cells[idx] := c; }
        case ToNull =>
        case ToFunction => received := received + [c];
      }
      text := text + [c];
      next := idx + 1;
    }

    /** The padding loops: `n` spaces. */
    method Spaces(n: int, idx: nat) returns (next: nat)
      requires Valid() && idx == |text| && |text| + |Repeat(' ', n)| <= limit
      modifies this, cells
      ensures Valid() && text == old(text) + Repeat(' ', n) && next == |text|
    {
      next := idx;
      var i := 0;
      assert Repeat(' ', 0) == "" && text + "" == text;
      while i < n
        invariant Valid() && next == |text| && 0 <= i && (i <= n || i == 0)
        invariant text == old(text) + Repeat(' ', i) && |old(text)| + |Repeat(' ', n)| <= limit
      {
        assert Repeat(' ', i + 1) == Repeat(' ', i) + " ";
        next := Out(' ', next);
        i := i + 1;
      }
      assert Repeat(' ', i) == Repeat(' ', n);
    }

    /** The reversing loop of _ntoa_format. */
    method OutReversed(buf: array<char>, len: nat, idx: nat) returns (next: nat)
      requires Valid() && idx == |text| && len <= buf.Length && buf != cells && |text| + len <= limit
      modifies this, cells
      ensures Valid() && text == old(text) + Reversed(buf[..len]) && next == |text|
    {
      hide Reversed;
      next := idx;
      ghost var whole := Reversed(buf[..len]);
      for i := 0 to len
        invariant Valid() && next == |text| && text == old(text) + whole[..i]
        invariant buf[..len] == old(buf[..len])
      {
        ReversedAt(buf[..len], i);
        next := Out(buf[len - i - 1], next);
        assert whole[..i + 1] == whole[..i] + [whole[i]];
      }
      assert whole[..len] == whole;
    }
  }

  // ----- the scratch buffer -----

  /** The zero-padding loops of _ntoa_format. */
  method PadZeros(buf: array<char>, len: nat, n: nat) returns (next: nat)
    requires buf.Length == BUFFER_SIZE && len <= BUFFER_SIZE
    modifies buf
    ensures next <= BUFFER_SIZE && buf[..next] == Padded(old(buf[..len]), n)
  {
    next := len;
    ghost var was := buf[..len];
    assert was + Repeat('0', 0) == was;
    while next < n && next < BUFFER_SIZE
      invariant len <= next <= BUFFER_SIZE && (next <= n || next == len)
      invariant buf[..next] == was + Repeat('0', next - len)
    {
      assert Repeat('0', next + 1 - len) == Repeat('0', next - len) + ['0'];
      ghost var before := buf[..next];
      buf[next] := '0';
      assert buf[..next + 1] == before + ['0'];
      next := next + 1;
    }
    assert Repeat('0', next - len) == Repeat('0', Min(n, BUFFER_SIZE) - len);
  }

  method PushChar(buf: array<char>, len: nat, c: char) returns (next: nat)
    requires buf.Length == BUFFER_SIZE && len <= BUFFER_SIZE
    modifies buf
    ensures next <= BUFFER_SIZE && buf[..next] == Push(old(buf[..len]), c)
  {
    next := len;
    if len < BUFFER_SIZE {
      buf[len] := c;
      next := len + 1;
      assert buf[..next] == old(buf[..len]) + [c];
    }
  }

  /** Lines 168-188: the `#` prefix. */
  method PlacePrefix(buf: array<char>, len: nat, base: nat, prec: nat, width: nat, f: Flags) returns (next: nat)
    requires buf.Length == BUFFER_SIZE && len <= BUFFER_SIZE
    modifies buf
    ensures next <= BUFFER_SIZE && buf[..next] == Prefixed(old(buf[..len]), base, prec, width, f)
  {
    hide Push;
    next := len;
    if f.hash {
      if !f.precision && next != 0 && (next == prec || next == width) {
        next := next - 1;
        if next != 0 && base == 16 {
          next := next - 1;
        }
      }
      assert buf[..next] == old(buf[..len])[..next];
      if base == 16 && !f.upper {
        next := PushChar(buf, next, 'x');
      } else if base == 16 && f.upper {
        next := PushChar(buf, next, 'X');
      } else if base == 2 {
        next := PushChar(buf, next, 'b');
      }
      next := PushChar(buf, next, '0');
    }
  }

  /** Lines 190-204: the sign. */
  method PlaceSign(buf: array<char>, len: nat, negative: bool, width: nat, f: Flags) returns (next: nat)
    requires buf.Length == BUFFER_SIZE && len <= BUFFER_SIZE
    modifies buf
    ensures next <= BUFFER_SIZE && buf[..next] == Signed(old(buf[..len]), Sign(negative, f), width)
  {
    next := len;
    if next != 0 && next == width && (negative || f.plus || f.space) {
      next := next - 1;
    }
    ghost var kept := buf[..next];
    assert kept == old(buf[..len])[..next] && kept + "" == kept;
    if next < BUFFER_SIZE {
      if negative {
        next := PushChar(buf, next, '-');
      } else if f.plus {
        next := PushChar(buf, next, '+');
      } else if f.space {
        next := PushChar(buf, next, ' ');
      }
    }
  }

  /** _ntoa_format: the scratch surgery and the emission. */
  method NtoaFormat(sink: Sink, idx: nat, buf: array<char>, len: nat, negative: bool, base: nat,
                    prec: nat, width: nat, f: Flags)
    returns (next: nat)
    requires sink.Valid() && idx == |sink.text| && buf.Length == BUFFER_SIZE && len <= BUFFER_SIZE && buf != sink.cells
    requires |sink.text| + |Field(buf[..len], negative, base, prec, width, f)| <= sink.limit
    modifies sink, sink.cells, buf
    ensures sink.Valid() && next == |sink.text|
    ensures sink.text == old(sink.text) + Field(old(buf[..len]), negative, base, prec, width, f)
  {
    hide Padded, Prefixed, Signed;
    ghost var ds := buf[..len];
    var n := len;
    if !f.left { n := PadZeros(buf, n, prec); }
    if !f.left && f.zeropad { n := PadZeros(buf, n, width); }
    assert buf[..n] == ZeroPadded(ds, prec, width, f);
    n := PlacePrefix(buf, n, base, prec, width, f);
    n := PlaceSign(buf, n, negative, width, f);
    ghost var body := buf[..n];
    assert body == Body(ds, negative, base, prec, width, f);
    next := EmitBody(sink, idx, buf, n, width, f);
  }

  /** Lines 206-225: spaces, the body reversed, spaces. */
  method EmitBody(sink: Sink, idx: nat, buf: array<char>, len: nat, width: nat, f: Flags) returns (next: nat)
    requires sink.Valid() && idx == |sink.text| && len <= buf.Length && buf != sink.cells
    requires |sink.text| + |Laid(buf[..len], width, f)| <= sink.limit
    modifies sink, sink.cells
    ensures sink.Valid() && next == |sink.text|
    ensures sink.text == old(sink.text) + Laid(buf[..len], width, f)
  {
    hide Reversed, Repeat;
    var start := idx;
    next := idx;
    ghost var was, body := sink.text, Reversed(buf[..len]);
    if !f.left && !f.zeropad { next := sink.Spaces(width - len, next); }
    next := sink.OutReversed(buf, len, next);
    if f.left { next := sink.Spaces(width - (next - start), next); }
    ghost var gap := Repeat(' ', width - len);
    Associates3(was, if f.left then body else gap, if f.left then gap else body);
  }

  /** _ntoa_long and _ntoa_long_long. */
  method EmitNumber(sink: Sink, idx: nat, value: nat, negative: bool, base: nat, prec: nat, width: nat, f: Flags)
    returns (next: nat)
    requires sink.Valid() && idx == |sink.text| && 2 <= base <= 16
    requires |sink.text| + |Ntoa(value, negative, base, prec, width, f)| <= sink.limit
    modifies sink, sink.cells
    ensures sink.Valid() && next == |sink.text|
    ensures sink.text == old(sink.text) + Ntoa(value, negative, base, prec, width, f)
  {
    hide Field, Digits;
    var buf := new char[BUFFER_SIZE];
    var len := 0;
    var flags := if value == 0 then f.(hash := false) else f;
    if !flags.precision || value != 0 { len := GenerateDigits(value, base, flags.upper, buf); }
    assert buf[..len] == ScratchDigits(value, base, f);
    assert flags == f.(hash := f.hash && value != 0);
    next := NtoaFormat(sink, idx, buf, len, negative, base, prec, width, flags);
  }

  // ----- conversions -----

  method EmitInteger(sink: Sink, idx: nat, c: char, f: Flags, width: nat, prec: nat, size: Size, s: Slot)
    returns (next: nat)
    requires sink.Valid() && idx == |sink.text| && IsInteger(c)
    requires |sink.text| + |IntegerText(c, f, width, prec, size, s)| <= sink.limit
    modifies sink, sink.cells
    ensures sink.Valid() && next == |sink.text|
    ensures sink.text == old(sink.text) + IntegerText(c, f, width, prec, size, s)
  {
    hide Ntoa, IntegerFlags, Base, SignedValue, UnsignedValue;
    var base, flags := IntegerSettings(c, f);
    if IsSigned(c) {
      var value := SignedValue(size, s);
      next := EmitNumber(sink, idx, Magnitude(value), value < 0, base, prec, width, flags);
    } else {
      next := EmitNumber(sink, idx, UnsignedValue(size, s), false, base, prec, width, flags);
    }
  }

  /** Lines 535-563: the base, and the flags that the conversion cancels. */
  method IntegerSettings(c: char, f: Flags) returns (base: nat, flags: Flags)
    ensures base == Base(c) && flags == IntegerFlags(c, f)
  {
    base := 10;
    flags := f.(upper := c == 'X');
    if c == 'x' || c == 'X' {
      base := 16;
    } else if c == 'o' {
      base := 8;
    } else if c == 'b' {
      base := 2;
    } else {
      flags := flags.(hash := false);
    }
    if c != 'i' && c != 'd' { flags := flags.(plus := false, space := false); }
    if flags.precision { flags := flags.(zeropad := false); }
  }

  method EmitChar(sink: Sink, idx: nat, f: Flags, width: nat, s: Slot) returns (next: nat)
    requires sink.Valid() && idx == |sink.text| && |sink.text| + |CharText(f, width, s)| <= sink.limit
    modifies sink, sink.cells
    ensures sink.Valid() && next == |sink.text| && sink.text == old(sink.text) + CharText(f, width, s)
  {
    hide Repeat;
    next := idx;
    ghost var was, c := sink.text, [(s.word % 0x100) as char];
    if !f.left { next := sink.Spaces(width - 1, next); }
    next := sink.Out((s.word % 0x100) as char, next);
    if f.left { next := sink.Spaces(width - 1, next); }
    Associates3(was, Repeat(' ', width - 1), c);
    Associates3(was, c, Repeat(' ', width - 1));
  }

  /** The characters of a string up to the precision. */
  method EmitPrefix(sink: Sink, idx: nat, f: Flags, prec: nat, text: string) returns (next: nat)
    requires sink.Valid() && idx == |sink.text|
    requires |sink.text| + (if f.precision then Min(|text|, prec) else |text|) <= sink.limit
    modifies sink, sink.cells
    ensures sink.Valid() && next == |sink.text|
    ensures sink.text == old(sink.text) + if f.precision then text[..Min(|text|, prec)] else text
  {
    next := idx;
    var i, left := 0, prec;
    while i < |text| && (!f.precision || left != 0)
      invariant sink.Valid() && next == |sink.text| && 0 <= i <= |text|
      invariant f.precision ==> i + left == prec
      invariant sink.text == old(sink.text) + text[..i]
      decreases |text| - i
    {
      next := sink.Out(text[i], next);
      assert text[..i + 1] == text[..i] + [text[i]];
      i := i + 1;
      if f.precision { left := left - 1; }
    }
    assert text[..|text|] == text;
  }

  method EmitString(sink: Sink, idx: nat, f: Flags, width: nat, prec: nat, s: Slot) returns (next: nat)
    requires sink.Valid() && idx == |sink.text| && |sink.text| + |StringText(f, width, prec, s)| <= sink.limit
    modifies sink, sink.cells
    ensures sink.Valid() && next == |sink.text| && sink.text == old(sink.text) + StringText(f, width, prec, s)
  {
    hide Repeat;
    next := idx;
    var l := |s.text| % UINT_RANGE;
    if f.precision { l := if l < prec then l else prec; }
    ghost var was, shown := sink.text, if f.precision then s.text[..Min(|s.text|, prec)] else s.text;
    if !f.left { next := sink.Spaces(width - l, next); }
    next := EmitPrefix(sink, next, f, prec, s.text);
    if f.left { next := sink.Spaces(width - l, next); }
    Associates3(was, Repeat(' ', width - l), shown);
    Associates3(was, shown, Repeat(' ', width - l));
  }

  /** The switch on the conversion character. */
  method EmitConversion(sink: Sink, idx: nat, c: char, f: Flags, width: nat, prec: nat, size: Size, s: Slot)
    returns (next: nat)
    requires sink.Valid() && idx == |sink.text|
    requires |sink.text| + |Converted(c, f, width, prec, size, s)| <= sink.limit
    modifies sink, sink.cells
    ensures sink.Valid() && next == |sink.text|
    ensures sink.text == old(sink.text) + Converted(c, f, width, prec, size, s)
  {
    hide IntegerText, CharText, StringText, Ntoa;
    if IsInteger(c) {
      next := EmitInteger(sink, idx, c, f, width, prec, size, s);
    } else if c == 'c' {
      next := EmitChar(sink, idx, f, width, s);
    } else if c == 's' {
      next := EmitString(sink, idx, f, width, prec, s);
    } else if c == 'p' {
      next := EmitNumber(sink, idx, s.word % ULONG_RANGE, false, 16, prec, 16, f.(zeropad := true, upper := true));
    } else {
      next := sink.Out(c, idx);
    }
  }

  // ----- the scanner -----

  /** The flag loop. */
  method ScanFlags(format: string, at: nat) returns (f: Flags, next: nat)
    requires at <= |format|
    ensures at <= next <= |format| && TakeFlags(format[at..], NO_FLAGS) == (f, format[next..])
  {
    f, next := NO_FLAGS, at;
    var more := true;
    while more
      invariant at <= next <= |format| && TakeFlags(format[at..], NO_FLAGS) == TakeFlags(format[next..], f)
      invariant !more ==> next == |format| || !IsFlag(format[next])
      decreases |format| - next, more
    {
      var c := if next < |format| then format[next] else '\0';
      ghost var was := f;
      more := true;
      if c == '0' {
        f := f.(zeropad := true);
      } else if c == '-' {
        f := f.(left := true);
      } else if c == '+' {
        f := f.(plus := true);
      } else if c == ' ' {
        f := f.(space := true);
      } else if c == '#' {
        f := f.(hash := true);
      } else {
        more := false;
      }
      if more {
        assert f == WithFlag(was, c) && format[next..][1..] == format[next + 1..];
        next := next + 1;
      }
    }
  }

  /** A number or a star, for the width and for the precision. */
  method ScanAmount(format: string, at: nat) returns (a: Amount, next: nat)
    requires at <= |format|
    ensures at <= next <= |format| && TakeAmount(format[at..]) == (a, format[next..])
  {
    hide DigitRun, Read;
    a, next := Absent, at;
    if at < |format| && IsDigit(format[at]) {
      var n;
      n, next := Atoi(format, at);
      a := Number(n);
      assert format[at..][next - at..] == format[next..];
    } else if at < |format| && format[at] == '*' {
      a, next := Star, at + 1;
    }
  }

  /** The length modifier. */
  method ScanLength(format: string, at: nat) returns (size: Size, next: nat)
    requires at <= |format|
    ensures at <= next <= |format| && TakeLength(format[at..]) == (size, format[next..])
  {
    size, next := IntSize, at;
    if at == |format| { return; }
    var c := format[at];
    if c == 'l' {
      size, next := LongSize, at + 1;
      if next < |format| && format[next] == 'l' { size, next := LongLongSize, next + 1; }
    } else if c == 'h' {
      size, next := ShortSize, at + 1;
      if next < |format| && format[next] == 'h' { size, next := CharSize, next + 1; }
    } else if c == 't' || c == 'j' || c == 'z' {
      size, next := LongSize, at + 1;
    }
  }

  /** Everything between the percent sign and the conversion character. */
  method ScanDirective(format: string, at: nat) returns (d: Directive, next: nat)
    requires at <= |format|
    ensures at <= next <= |format| && d == Parse(format[at..]) && d.rest == format[next..]
  {
    hide TakeFlags, TakeAmount, TakeLength;
    var f, w, p, size;
    f, next := ScanFlags(format, at);
    w, next := ScanAmount(format, next);
    p := Absent;
    if next < |format| && format[next] == '.' {
      assert format[next..][1..] == format[next + 1..];
      f := f.(precision := true);
      p, next := ScanAmount(format, next + 1);
    }
    size, next := ScanLength(format, next);
    d := Directive(f, w, p, size, format[next..]);
  }

  // ----- the main loop -----

  /** A star width or precision is the next argument. */
  method ResolveWidth(d: Directive, va: seq<Slot>) returns (f: Flags, width: nat, left: seq<Slot>)
    ensures (f, width, left) == Width(d, va)
  {
    f, width, left := d.flags, 0, va;
    if d.width.Number? {
      width := d.width.n;
    } else if d.width.Star? {
      var w := AsInt(Head(va));
      left := Tail(va);
      if w < 0 { f, width := f.(left := true), -w; } else { width := w; }
    }
  }

  method ResolvePrecision(d: Directive, va: seq<Slot>) returns (prec: nat, left: seq<Slot>)
    ensures (prec, left) == Precision(d, va)
  {
    prec, left := 0, va;
    if d.precision.Number? {
      prec := d.precision.n;
    } else if d.precision.Star? {
      var p := AsInt(Head(va));
      prec, left := if p > 0 then p else 0, Tail(va);
    }
  }

  /** One directive of the format, from the character after its percent sign. */
  method EmitDirective(sink: Sink, idx: nat, format: string, at: nat, va: seq<Slot>)
    returns (next: nat, after: nat, left: seq<Slot>)
    requires sink.Valid() && idx == |sink.text| && at <= |format| && Parse(format[at..]).rest != []
    requires |sink.text| + |Expanded(Parse(format[at..]), va).0| <= sink.limit
    modifies sink, sink.cells
    ensures sink.Valid() && next == |sink.text| && at < after <= |format|
    ensures format[after..] == Parse(format[at..]).rest[1..]
    ensures sink.text == old(sink.text) + Expanded(Parse(format[at..]), va).0
    ensures left == Expanded(Parse(format[at..]), va).1
  {
    hide Parse, Converted, Width, Precision;
    var d, conv := ScanDirective(format, at);
    var f, width, va1 := ResolveWidth(d, va);
    var prec, va2 := ResolvePrecision(d, va1);
    var c := format[conv];
    next := EmitConversion(sink, idx, c, f, width, prec, d.size, Head(va2));
    left := if TakesArgument(c) then Tail(va2) else va2;
    after := conv + 1;
    assert format[conv..][1..] == format[after..];
  }

  lemma RenderPlain(fmt: string, va: seq<Slot>)
    requires Supported(fmt) && fmt != [] && fmt[0] != '%'
    ensures Supported(fmt[1..]) && Render(fmt, va) == [fmt[0]] + Render(fmt[1..], va)
  {
  }

  lemma RenderDirective(fmt: string, va: seq<Slot>)
    requires Supported(fmt) && fmt != [] && fmt[0] == '%'
    ensures var d := Parse(fmt[1..]);
            d.rest != [] && Supported(d.rest[1..]) &&
            Render(fmt, va) == Expanded(d, va).0 + Render(d.rest[1..], Expanded(d, va).1)
  {
    hide Parse, Expanded;
  }

  lemma RenderNothing(va: seq<Slot>)
    ensures Supported([]) && Render([], va) == []
  {
  }

  /** The loop of _vsnprintf: everything the format renders to is emitted, in order. */
  method EmitFormat(sink: Sink, format: string, va: seq<Slot>) returns (idx: nat)
    requires sink.Valid() && sink.text == "" && Supported(format) && |Render(format, va)| <= sink.limit
    modifies sink, sink.cells
    ensures sink.Valid() && sink.text == Render(format, va) && idx == |sink.text|
  {
    hide Supported, Render, Parse, Expanded;
    idx := 0;
    var at: nat, args := 0, va;
    ghost var whole := Render(format, va);
    assert format[0..] == format && "" + whole == whole;
    while at < |format|
      invariant at <= |format| && sink.Valid() && idx == |sink.text|
      invariant Supported(format[at..]) && sink.text + Render(format[at..], args) == whole
    {
      assert format[at..][0] == format[at] && format[at..][1..] == format[at + 1..];
      ghost var was := sink.text;
      if format[at] != '%' {
        RenderPlain(format[at..], args);
        Associates3(was, [format[at]], Render(format[at + 1..], args));
        idx := sink.Out(format[at], idx);
        at := at + 1;
      } else {
        RenderDirective(format[at..], args);
        ghost var d := Parse(format[at + 1..]);
        Associates3(was, Expanded(d, args).0, Render(d.rest[1..], Expanded(d, args).1));
        idx, at, args := EmitDirective(sink, idx, format, at + 1, args);
      }
    }
    RenderNothing(args);
    assert format[at..] == [] && sink.text + [] == sink.text;
  }

  // ----- the entry points -----

  const SIZE_MAX := 0xFFFF_FFFF_FFFF_FFFF

  /** Truncation: the first characters of `out` that fit, a NUL after them, and nothing else touched. */
  ghost predicate Truncated(now: seq<char>, was: seq<char>, out: string, count: nat) {
    |now| == |was| &&
    forall k :: 0 <= k < |was| ==>
      now[k] == if count > 0 && k < Min(|out|, count - 1) then out[k]
                else if count > 0 && k == Min(|out|, count - 1) then '\0' else was[k]
  }

  /** _vsnprintf: the text, then a NUL at the end or in the last cell; the result is the full length. */
  method Vsnprintf(sink: Sink, format: string, va: seq<Slot>) returns (r: int)
    requires sink.Valid() && sink.text == "" && Supported(format) && |Render(format, va)| <= sink.limit
    modifies sink, sink.cells
    ensures r == SignedOf(|Render(format, va)|, UINT_RANGE)
    ensures sink.kind == ToBuffer ==> Truncated(sink.cells[..], sink.initial, Render(format, va), sink.maxlen)
    ensures sink.kind != ToBuffer ==> sink.cells[..] == sink.initial
    ensures sink.received == if sink.kind == ToFunction then Render(format, va) + ['\0'] else ""
  {
    hide Supported, Render, SignedOf;
    var idx := EmitFormat(sink, format, va);
    var last := if idx < sink.maxlen then idx else if sink.maxlen > 0 then sink.maxlen - 1 else SIZE_MAX;
    match sink.kind {
      case ToBuffer => if last < sink.maxlen { sink.cells[last] := '\0'; }
      case ToNull =>
      case ToFunction => sink.received := sink.received + ['\0'];
    }
    r := SignedOf(idx, UINT_RANGE);
  }

  /** snprintf and vsnprintf: a NULL buffer receives nothing and still yields the length. */
  method Snprintf(buffer: array?<char>, count: nat, format: string, va: seq<Slot>) returns (r: int)
    requires Supported(format)
    requires buffer != null ==> count <= buffer.Length || |Render(format, va)| < buffer.Length
    modifies if buffer == null then {} else {buffer}
    ensures r == SignedOf(|Render(format, va)|, UINT_RANGE)
    ensures buffer != null ==> Truncated(buffer[..], old(buffer[..]), Render(format, va), count)
  {
    hide Supported, Render, SignedOf;
    if buffer == null {
      var none := new char[0];
      var sink := new Sink(ToNull, none, count, |Render(format, va)|);
      r := Vsnprintf(sink, format, va);
    } else {
      var sink := new Sink(ToBuffer, buffer, count, |Render(format, va)|);
      r := Vsnprintf(sink, format, va);
    }
  }

  /** sprintf: no bound, so the buffer must have room for the text and the NUL. */
  method Sprintf(buffer: array<char>, format: string, va: seq<Slot>) returns (r: int)
    requires Supported(format) && |Render(format, va)| < buffer.Length <= SIZE_MAX
    modifies buffer
    ensures r == SignedOf(|Render(format, va)|, UINT_RANGE)
    ensures buffer[..] == Render(format, va) + ['\0'] + old(buffer[..])[|Render(format, va)| + 1..]
  {
    hide Supported, Render, SignedOf;
    r := Snprintf(buffer, SIZE_MAX, format, va);
  }

  /** fctprintf: the callback receives every character, and then a NUL. */
  method Fctprintf(format: string, va: seq<Slot>) returns (r: int, received: string)
    requires Supported(format)
    ensures r == SignedOf(|Render(format, va)|, UINT_RANGE)
    ensures received == Render(format, va) + ['\0']
  {
    hide Supported, Render, SignedOf;
    var none := new char[0];
    var sink := new Sink(ToFunction, none, SIZE_MAX, |Render(format, va)|);
    r := Vsnprintf(sink, format, va);
    received := sink.received;
  }
}
