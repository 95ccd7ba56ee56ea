/**
 * Which argument each directive of a format takes: the va_arg calls of
 * _vsnprintf in api/keystone/vsnprintf.c, counted.
 */
module PrintfArguments {
  import opened Basics
  import opened Numerals
  import opened IntegerField
  import opened Directives
  import opened PrintfText
  import opened PrintfTheorems

  /** Argument number `i`; past the last one a zero word. */
  function At(va: seq<Slot>, i: nat): Slot { if i < |va| then va[i] else Slot(0, "") }

  /** The arguments after the first `k`. */
  function Drop(va: seq<Slot>, k: nat): seq<Slot> { if k <= |va| then va[k..] else [] }

  function Stars(d: Directive): nat { (if d.width == Star then 1 else 0) + (if d.precision == Star then 1 else 0) }

  /** The arguments of one directive: one for each star, and one for the conversions that print one. */
  function Taken(d: Directive): nat
    requires d.rest != []
  {
    Stars(d) + if d.rest[0] in "diuxXobcsp" then 1 else 0
  }

  /** The arguments of a format. */
  function Arguments(fmt: string): nat
    requires Supported(fmt)
    decreases |fmt|
  {
    if fmt == [] then 0
    else if fmt[0] != '%' then Arguments(fmt[1..])
    else var d := Parse(fmt[1..]); Taken(d) + Arguments(d.rest[1..])
  }

  lemma DropTwice(va: seq<Slot>, j: nat, k: nat)
    ensures Drop(Drop(va, j), k) == Drop(va, j + k)
    ensures At(Drop(va, j), k) == At(va, j + k)
  {
  }

  lemma HeadAndTail(va: seq<Slot>)
    ensures Head(va) == At(va, 0) && Tail(va) == Drop(va, 1) && Drop(va, 0) == va
  {
  }

  /** The stars take the first arguments, in order. */
  lemma StarsTake(d: Directive, va: seq<Slot>)
    ensures Width(d, va).2 == Drop(va, if d.width == Star then 1 else 0)
    ensures Precision(d, Width(d, va).2).1 == Drop(va, Stars(d))
  {
    hide SignedOf, At, Drop, Head, Tail;
    var w := if d.width == Star then 1 else 0;
    HeadAndTail(va);
    HeadAndTail(Drop(va, w));
    DropTwice(va, w, 1);
  }

  lemma Letters(c: char)
    ensures c in "diuxXobcsp" <==> TakesArgument(c)
  {
    var all := "diuxXobcsp";
    assert all[0] == 'd' && all[1] == 'i' && all[2] == 'u' && all[3] == 'x' && all[4] == 'X';
    assert all[5] == 'o' && all[6] == 'b' && all[7] == 'c' && all[8] == 's' && all[9] == 'p';
  }

  /** A directive converts the argument after those of its stars and leaves those after it. */
  lemma DirectiveTakes(d: Directive, va: seq<Slot>)
    requires d.rest != []
    ensures Expanded(d, va).1 == Drop(va, Taken(d))
    ensures var (f, w, va1) := Width(d, va);
            Expanded(d, va).0 == Converted(d.rest[0], f, w, Precision(d, va1).0, d.size, At(va, Stars(d)))
  {
    hide Converted, Width, Precision, At, Drop, Head, Tail, TakesArgument;
    StarsTake(d, va);
    Letters(d.rest[0]);
    HeadAndTail(Drop(va, Stars(d)));
    DropTwice(va, Stars(d), 0);
    DropTwice(va, Stars(d), 1);
  }

  /** A format leaves the arguments after its own. */
  lemma {:induction false} FormatTakes(fmt: string, va: seq<Slot>)
    requires Supported(fmt)
    ensures Leftover(fmt, va) == Drop(va, Arguments(fmt))
    decreases |fmt|
  {
    hide Parse, Expanded, Drop, Taken;
    if fmt == [] {
      HeadAndTail(va);
    } else if fmt[0] != '%' {
      FormatTakes(fmt[1..], va);
    } else {
      var d := Parse(fmt[1..]);
      DirectiveTakes(d, va);
      FormatTakes(d.rest[1..], Expanded(d, va).1);
      DropTwice(va, Taken(d), Arguments(d.rest[1..]));
    }
  }

  /**
   * Behind a format that takes n arguments, a directive without stars converts argument n, and the
   * rest of the format begins with the argument after it.
   */
  lemma NthArgument(a: string, fs: string, w: Amount, p: Amount, len: Length, tail: string, va: seq<Slot>)
    requires Supported(a) && Spellable(fs, w, p, tail) && !w.Star? && !p.Star?
    ensures var fmt := a + Spelled(fs, w, p, len, tail);
            var n := Arguments(a);
            Supported(fmt) &&
            Render(fmt, va) ==
            Render(a, va) +
            (Converted(tail[0], FlagSet(fs, NO_FLAGS).(precision := !p.Absent?), if w.Absent? then 0 else w.n,
                       if p.Absent? then 0 else p.n, len.Size(), At(va, n)) +
             Render(tail[1..], Drop(va, if tail[0] in "diuxXobcsp" then n + 1 else n)))
  {
    hide Supported, Render, Converted, Spelled, FlagSet, At, Drop, Head, Tail, TakesArgument, Leftover, Arguments;
    hide Spellable;
    var n, b := Arguments(a), Spelled(fs, w, p, len, tail);
    FormatTakes(a, va);
    SpelledSupported(fs, w, p, len, tail);
    RenderConcat(a, b, va);
    StarlessTakes(fs, w, p, len, tail, va, n);
  }

  lemma SpelledSupported(fs: string, w: Amount, p: Amount, len: Length, tail: string)
    requires Spellable(fs, w, p, tail)
    ensures Supported(Spelled(fs, w, p, len, tail)) && tail != [] && Supported(tail[1..])
  {
    hide Supported, Render, Expanded, FlagSet, Spelled;
    SpelledRenders(fs, w, p, len, tail, []);
  }

  lemma StarlessTakes(fs: string, w: Amount, p: Amount, len: Length, tail: string, va: seq<Slot>, n: nat)
    requires Spellable(fs, w, p, tail) && !w.Star? && !p.Star?
    ensures var b := Spelled(fs, w, p, len, tail);
            Supported(b) && tail != [] && Supported(tail[1..]) &&
            Render(b, Drop(va, n)) ==
            Converted(tail[0], FlagSet(fs, NO_FLAGS).(precision := !p.Absent?), if w.Absent? then 0 else w.n,
                      if p.Absent? then 0 else p.n, len.Size(), At(va, n)) +
            Render(tail[1..], Drop(va, if tail[0] in "diuxXobcsp" then n + 1 else n))
  {
    hide Supported, Render, Converted, Spelled, FlagSet, At, Drop, Head, Tail, TakesArgument;
    SpelledDirectiveRenders(fs, w, p, len, tail, Drop(va, n));
    Letters(tail[0]);
    HeadAndTail(Drop(va, n));
    DropTwice(va, n, 0);
    DropTwice(va, n, 1);
  }
}
