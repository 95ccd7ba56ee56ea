/**
 * The fallback overflow-checked arithmetic of api/include/compiler.h.
 *
 * A C expression is modelled as a typed value.  The operators apply the integer
 * promotions and the usual arithmetic conversions; unsigned results wrap, and a
 * signed result out of range is undefined, so it is a precondition.  That the
 * macros below type-check therefore says that none of their guards overflows.
 */
module CheckedArithmetic {
  import opened Basics

  /**
   * An integer type of 8, 16, 32 or 64 bits, given by __INTOF_HALF_MAX_SIGNED, which is 2 to
   * the power of its width less two, and its signedness.
   */
  datatype CType = CType(quarter: int, signed: bool) {
    predicate Valid() {
      quarter == 0x40 || quarter == 0x4000 || quarter == 0x4000_0000 || quarter == 0x4000_0000_0000_0000
    }

    function Modulus(): int { 4 * quarter }

    function Lo(): int { if signed then -2 * quarter else 0 }

    function Hi(): int { if signed then 2 * quarter - 1 else 4 * quarter - 1 }

    predicate Fits(v: int) { Lo() <= v <= Hi() }

    /** Conversion to this type: the representable value congruent to `v`. */
    function Wrap(v: int): (w: int)
      requires Valid()
      ensures Fits(w)
      ensures Fits(v) ==> w == v
      ensures !signed && -Modulus() <= v < 0 ==> w == v + Modulus()
      decreases if v < Lo() then Lo() - v + Modulus() else v - Lo()
    {
      if v < Lo() then Wrap(v + Modulus()) else if v > Hi() then Wrap(v - Modulus()) else v
    }

    function Promoted(): (t: CType)
      requires Valid()
      ensures t.Valid() && t.quarter >= INT.quarter
    {
      if quarter < INT.quarter then INT else this
    }
  }

  const INT := CType(0x4000_0000, true)
  const UINTMAX := CType(0x4000_0000_0000_0000, false)
  const HALF := 0x1_0000_0000
  const FULL := 0x1_0000_0000_0000_0000
  const HMASK := 0xFFFF_FFFF

  type Typed = x: CVal | x.t.Valid() && x.t.Fits(x.v) witness CVal(INT, 0)

  datatype CVal = CVal(t: CType, v: int)

  const ONE: Typed := CVal(INT, 1)

  /** The usual arithmetic conversions on promoted operands. */
  function Common(t: CType, u: CType): (c: CType)
    requires t.Valid() && u.Valid()
    ensures c.Valid() && c.quarter >= INT.quarter
    ensures t == u ==> c == t.Promoted()
    ensures u == t.Promoted() ==> c == u
    ensures t == u.Promoted() ==> c == t
  {
    var p, q := t.Promoted(), u.Promoted();
    if p.quarter > q.quarter then p else if q.quarter > p.quarter then q
    else CType(p.quarter, p.signed && q.signed)
  }

  function Convert(t: CType, x: Typed): (y: Typed)
    requires t.Valid()
    ensures y.t == t
  {
    CVal(t, t.Wrap(x.v))
  }

  /** An arithmetic result in type `t`: wraps if unsigned, must fit if signed. */
  function Result(t: CType, v: int): (y: Typed)
    requires t.Valid() && (t.signed ==> t.Fits(v))
    ensures y.t == t && (t.Fits(v) ==> y.v == v)
  {
    CVal(t, t.Wrap(v))
  }

  function Left(x: Typed, y: Typed): int { Common(x.t, y.t).Wrap(x.v) }

  function Right(x: Typed, y: Typed): int { Common(x.t, y.t).Wrap(y.v) }

  predicate Less(x: Typed, y: Typed) { Left(x, y) < Right(x, y) }

  predicate BelowOne(x: Typed): (below: bool)
    ensures below <==> x.v < 1
  {
    Less(x, ONE)
  }

  predicate AtMost(x: Typed, y: Typed) { Left(x, y) <= Right(x, y) }

  predicate Same(x: Typed, y: Typed) { Left(x, y) == Right(x, y) }

  function Plus(x: Typed, y: Typed): Typed
    requires var t := Common(x.t, y.t); t.signed ==> t.Fits(Left(x, y) + Right(x, y))
  {
    Result(Common(x.t, y.t), Left(x, y) + Right(x, y))
  }

  function Minus(x: Typed, y: Typed): Typed
    requires var t := Common(x.t, y.t); t.signed ==> t.Fits(Left(x, y) - Right(x, y))
  {
    Result(Common(x.t, y.t), Left(x, y) - Right(x, y))
  }

  function Times(x: Typed, y: Typed): Typed
    requires var t := Common(x.t, y.t); t.signed ==> t.Fits(Left(x, y) * Right(x, y))
  {
    Result(Common(x.t, y.t), Left(x, y) * Right(x, y))
  }

  function Negate(x: Typed): Typed
    requires var t := x.t.Promoted(); t.signed ==> t.Fits(-x.v)
  {
    Result(x.t.Promoted(), -x.v)
  }

  // ----- the macros -----

  /** __INTOF_HALF_MAX_SIGNED and __INTOF_MAX_SIGNED. */
  function IntofMaxSigned(t: CType): (m: Typed)
    requires t.Valid() && t.signed
    ensures m.v == t.Hi() && m.t == t.Promoted()
  {
    var half: Typed := CVal(t.Promoted(), t.quarter);
    var less := Minus(half, ONE);
    assert less.v == t.quarter - 1 && less.t == t.Promoted();
    Plus(less, half)
  }

  /** __INTOF_MIN_SIGNED: built from half of the signed maximum, so that no step overflows. */
  function IntofMinSigned(t: CType): (m: Typed)
    requires t.Valid() && t.signed
    ensures m.v == t.Lo() && m.t == t.Promoted()
  {
    var max := IntofMaxSigned(t);
    Minus(CVal(INT, -1), max)
  }

  /** __INTOF_MIN: the cast of -1 tells signed from unsigned. */
  function IntofMin(t: CType): (m: Typed)
    requires t.Valid()
    ensures m.v == t.Lo() && m.t == t.Promoted()
  {
    if BelowOne(Convert(t, CVal(INT, -1))) then IntofMinSigned(t) else CVal(t.Promoted(), 0)
  }

  /** __INTOF_MAX: the complement (-1 - m in two's complement) of the minimum, cast to the type. */
  function IntofMax(t: CType): (m: Typed)
    requires t.Valid()
    ensures m.v == t.Hi() && m.t == t
  {
    var min := IntofMin(t);
    Convert(t, CVal(min.t, min.t.Wrap(-1 - min.v)))
  }

  /** __INTOF_ASSIGN: the value stored in the destination, or None where the macro yields 1. */
  function Assign(dest: CType, src: Typed): (r: Option<Typed>)
    requires dest.Valid()
    ensures r == if dest.Fits(src.v) then Some(CVal(dest, src.v)) else None
  {
    var y := Convert(dest, src);
    if Same(Convert(UINTMAX, src), Convert(UINTMAX, y)) && (BelowOne(src) <==> BelowOne(y))
    then Some(y) else None
  }

  predicate AddLowGuard(c: CType, a: Typed, b: Typed): (ok: bool)
    requires c.Valid() && a.t == b.t == c && b.v < 1
    ensures ok <==> c.Lo() <= a.v + b.v
  {
    hide IntofMin, IntofMax;
    AtMost(Minus(IntofMin(c), b), a)
  }

  predicate AddHighGuard(c: CType, a: Typed, b: Typed): (ok: bool)
    requires c.Valid() && a.t == b.t == c && b.v >= 1
    ensures ok <==> a.v + b.v <= c.Hi()
  {
    hide IntofMin, IntofMax;
    AtMost(a, Minus(IntofMax(c), b))
  }

  predicate AddGuard(c: CType, a: Typed, b: Typed): (ok: bool)
    requires c.Valid() && a.t == b.t == c
    ensures ok <==> c.Fits(a.v + b.v)
  {
    if BelowOne(b) then AddLowGuard(c, a, b) else AddHighGuard(c, a, b)
  }

  function PlusSame(c: CType, a: Typed, b: Typed): (r: Typed)
    requires c.Valid() && a.t == b.t == c && c.Fits(a.v + b.v)
    ensures r.v == a.v + b.v
  {
    Plus(a, b)
  }

  /** __INTOF_ADD on operands of the destination's type. */
  function Add(c: CType, a: Typed, b: Typed): (r: Option<Typed>)
    requires c.Valid() && a.t == b.t == c
    ensures r == if c.Fits(a.v + b.v) then Some(CVal(c, a.v + b.v)) else None
  {
    if AddGuard(c, a, b) then Assign(c, PlusSame(c, a, b)) else None
  }

  predicate SubLowGuard(c: CType, a: Typed, b: Typed): (ok: bool)
    requires c.Valid() && a.t == b.t == c && b.v >= 1
    ensures ok <==> c.Lo() <= a.v - b.v
  {
    hide IntofMin, IntofMax;
    AtMost(Plus(IntofMin(c), b), a)
  }

  predicate SubHighGuard(c: CType, a: Typed, b: Typed): (ok: bool)
    requires c.Valid() && a.t == b.t == c && b.v < 1
    ensures ok <==> a.v - b.v <= c.Hi()
  {
    hide IntofMin, IntofMax;
    AtMost(a, Plus(IntofMax(c), b))
  }

  predicate SubGuard(c: CType, a: Typed, b: Typed): (ok: bool)
    requires c.Valid() && a.t == b.t == c
    ensures ok <==> c.Fits(a.v - b.v)
  {
    if BelowOne(b) then SubHighGuard(c, a, b) else SubLowGuard(c, a, b)
  }

  function MinusSame(c: CType, a: Typed, b: Typed): (r: Typed)
    requires c.Valid() && a.t == b.t == c && c.Fits(a.v - b.v)
    ensures r.v == a.v - b.v
  {
    Minus(a, b)
  }

  /** __INTOF_SUB on operands of the destination's type. */
  function Sub(c: CType, a: Typed, b: Typed): (r: Option<Typed>)
    requires c.Valid() && a.t == b.t == c
    ensures r == if c.Fits(a.v - b.v) then Some(CVal(c, a.v - b.v)) else None
  {
    if SubGuard(c, a, b) then Assign(c, MinusSame(c, a, b)) else None
  }

  /** __INTOF_ADD as the multiply uses it: uintmax_t operands, any destination. */
  function AddWide(c: CType, a: Typed, b: Typed): (r: Option<Typed>)
    requires c.Valid() && a.t == b.t == UINTMAX
    ensures r.Some? ==> r.value.t == c && r.value.v >= 0
  {
    if if BelowOne(b) then AtMost(Minus(IntofMin(c), b), a) else AtMost(a, Minus(IntofMax(c), b))
    then Assign(c, Plus(a, b)) else None
  }

  /** Negating the least int or long is undefined. */
  predicate Negatable(x: Typed) { x.t.signed && x.t.quarter >= INT.quarter ==> x.v > x.t.Lo() }

  /** The magnitude __intof_a. */
  function Magnitude(x: Typed): (m: Typed)
    requires Negatable(x)
    ensures m.t == x.t
    ensures !x.t.signed ==> m == x
    ensures x.t.signed && x.v > x.t.Lo() ==> m.v == if x.v < 0 then -x.v else x.v
  {
    if BelowOne(x) then Convert(x.t, Negate(x)) else x
  }

  predicate Trivial(a: Typed, b: Typed) { a.v == 0 || b.v == 0 || a.v == 1 || b.v == 1 }

  /** High and low half-words of a magnitude widened to uintmax_t. */
  function High(x: Typed): (h: int)
    ensures 0 <= h <= HMASK
  {
    Convert(UINTMAX, x).v / HALF
  }

  function Low(x: Typed): (l: int)
    ensures 0 <= l <= HMASK
  {
    Convert(UINTMAX, x).v % HALF
  }

  function Word(v: int): Typed { CVal(UINTMAX, UINTMAX.Wrap(v)) }

  /** __intof_mul_t: the cross terms, in wrapping uintmax_t arithmetic. */
  function Cross(x: Typed, y: Typed): (t: Typed)
    ensures t.t == UINTMAX
  {
    Plus(Times(Word(Low(x)), Word(High(y))), Times(Word(High(x)), Word(Low(y))))
  }

  /** The sum of the half-word parts, or None where a guard or the addition refuses it. */
  function SumParts(c: CType, bothHigh: bool, cross: int, low: int): (r: Option<Typed>)
    requires c.Valid()
    ensures r.Some? ==> r.value.t == c && r.value.v >= 0
  {
    if bothHigh || cross > HMASK then None else AddWide(c, Word(cross * HALF), Word(low))
  }

  /** __intof_mul_a1 * __intof_mul_b1. */
  function LowProduct(x: Typed, y: Typed): (t: Typed)
    ensures t.t == UINTMAX
  {
    Times(Word(Low(x)), Word(Low(y)))
  }

  predicate BothHigh(x: Typed, y: Typed) { High(x) != 0 && High(y) != 0 }

  function MulMagnitudes(c: CType, x: Typed, y: Typed): (r: Option<Typed>)
    requires c.Valid()
    ensures r.Some? ==> r.value.t == c && r.value.v >= 0
  {
    SumParts(c, BothHigh(x, y), Cross(x, y).v, LowProduct(x, y).v)
  }

  /** __INTOF_MUL on operands of the destination's type. */
  function Mul(c: CType, a: Typed, b: Typed): (r: Option<Typed>)
    requires c.Valid() && a.t == b.t == c
    requires Negatable(a) && Negatable(b)
  {
    if Trivial(a, b) then Assign(c, Times(a, b))
    else match MulMagnitudes(c, Magnitude(a), Magnitude(b))
      case None => None
      case Some(p) => if BelowOne(a) != BelowOne(b) then Assign(c, Negate(p)) else Assign(c, p)
  }

  // ----- exactness of the multiply -----

  /** What a checked multiply promises: the true product, exactly when the type can hold it. */
  predicate Exact(c: CType, a: Typed, b: Typed)
    requires c.Valid() && a.t == b.t == c
    requires Negatable(a) && Negatable(b)
  {
    Mul(c, a, b) == if c.Fits(a.v * b.v) then Some(CVal(c, a.v * b.v)) else None
  }

  lemma HalfWordProduct(h: int, l: int, k: int, m: int)
    ensures (h * HALF + l) * (k * HALF + m) == h * k * FULL + (l * k + h * m) * HALF + l * m
  {
    assert (h * HALF + l) * (k * HALF + m) == h * HALF * (k * HALF) + h * HALF * m + l * (k * HALF) + l * m;
  }

  lemma MulBounds(x: int, y: int, m: int)
    requires 0 <= x <= m && 0 <= y <= m
    ensures 0 <= x * y <= m * m
  {
    assert x * y <= x * m <= m * m;
  }

  lemma TrivialTimes(c: CType, a: Typed, b: Typed)
    requires c.Valid() && a.t == b.t == c && Trivial(a, b)
    ensures c.Fits(a.v * b.v) && Times(a, b).v == a.v * b.v
    ensures a.v > c.Lo() && b.v > c.Lo() && c.signed ==> a.v * b.v > c.Lo()
  {
    assert a.v * b.v == if a.v == 0 || b.v == 0 then 0 else if a.v == 1 then b.v else a.v;
  }

  /** The low half-word product never wraps; the cross terms do not either once one high half is zero. */
  lemma HalfProductsExact(x: Typed, y: Typed)
    requires !BothHigh(x, y)
    ensures Cross(x, y).v == Low(x) * High(y) + High(x) * Low(y)
    ensures LowProduct(x, y).v == Low(x) * Low(y)
  {
    hide High, Low;
    MulBounds(Low(x), Low(y), HMASK);
    MulBounds(Low(x), High(y), HMASK);
    MulBounds(High(x), Low(y), HMASK);
    assert High(x) == 0 ==> High(x) * Low(y) == 0;
    assert High(y) == 0 ==> Low(x) * High(y) == 0;
  }

  lemma IntegerParts(h: int, l: int, k: int, m: int) returns (cross: int, low: int)
    requires 0 <= h <= HMASK && 0 <= l <= HMASK && 0 <= k <= HMASK && 0 <= m <= HMASK
    ensures cross == l * k + h * m && low == l * m && 0 <= cross && 0 <= low <= HMASK * HMASK
    ensures h != 0 && k != 0 ==> (h * HALF + l) * (k * HALF + m) >= FULL
    ensures h == 0 || k == 0 ==> (h * HALF + l) * (k * HALF + m) == cross * HALF + low
  {
    HalfWordProduct(h, l, k, m);
    MulBounds(l, m, HMASK);
    MulBounds(l, k, HMASK);
    MulBounds(h, m, HMASK);
    cross, low := l * k + h * m, l * m;
    var top := h * k;
    assert h != 0 && k != 0 ==> top >= 1;
    assert h == 0 || k == 0 ==> top == 0;
    assert top >= 1 ==> top * FULL >= FULL;
  }

  lemma HalvesOf(x: Typed)
    requires x.v >= 0
    ensures x.v == High(x) * HALF + Low(x)
  {
  }

  /** The true product is at least FULL if both high halves count, and else cross * HALF + low. */
  lemma ProductInParts(x: Typed, y: Typed) returns (cross: int, low: int)
    requires x.v >= 0 && y.v >= 0
    ensures BothHigh(x, y) ==> x.v * y.v >= FULL
    ensures 0 <= cross && 0 <= low <= HMASK * HMASK && low == Low(x) * Low(y)
    ensures !BothHigh(x, y) ==> cross == Cross(x, y).v && low == LowProduct(x, y).v
    ensures !BothHigh(x, y) ==> x.v * y.v == cross * HALF + low
  {
    HalvesOf(x);
    HalvesOf(y);
    hide High, Low, Cross, LowProduct;
    cross, low := IntegerParts(High(x), Low(x), High(y), Low(y));
    if !BothHigh(x, y) {
      HalfProductsExact(x, y);
    }
  }

  lemma AddWideSameWidth(a: Typed, b: Typed)
    requires a.t == b.t == UINTMAX
    ensures AddWide(UINTMAX, a, b) == if a.v + b.v < FULL then Some(CVal(UINTMAX, a.v + b.v)) else None
  {
    assert AddWide(UINTMAX, a, b) == Add(UINTMAX, a, b);
  }

  lemma SumPartsWide(bothHigh: bool, cross: int, low: int)
    requires 0 <= cross && 0 <= low < FULL
    ensures SumParts(UINTMAX, bothHigh, cross, low) ==
            if !bothHigh && cross * HALF + low < FULL then Some(CVal(UINTMAX, cross * HALF + low)) else None
  {
    if !bothHigh && cross <= HMASK {
      hide AddWide;
      var a, b := Word(cross * HALF), Word(low);
      AddWideSameWidth(a, b);
    }
  }

  lemma SumPartsNarrow(c: CType, low: int)
    requires c.Valid() && c.quarter <= INT.quarter && 1 <= low < FULL
    ensures SumParts(c, false, 0, low) == if low <= c.Hi() then Some(CVal(c, low)) else None
  {
    assert Plus(Word(0), Word(low)) == Word(low);
  }

  lemma NarrowHasNoHigh(c: CType, x: Typed)
    requires c.Valid() && c.quarter <= INT.quarter && x.t == c && x.v >= 0
    ensures High(x) == 0 && Low(x) == x.v
  {
  }

  lemma NarrowMagnitudes(c: CType, x: Typed, y: Typed)
    requires c.Valid() && c.quarter <= INT.quarter && x.t == y.t == c && x.v >= 1 && y.v >= 1
    ensures MulMagnitudes(c, x, y) == if x.v * y.v <= c.Hi() then Some(CVal(c, x.v * y.v)) else None
  {
    hide SumParts, Cross, LowProduct, High, Low;
    NarrowHasNoHigh(c, x);
    NarrowHasNoHigh(c, y);
    HalfProductsExact(x, y);
    var low := LowProduct(x, y).v;
    assert Cross(x, y).v == 0 && low == x.v * y.v >= 1;
    SumPartsNarrow(c, low);
  }

  lemma WideMagnitudes(x: Typed, y: Typed)
    requires x.t == y.t == UINTMAX
    ensures MulMagnitudes(UINTMAX, x, y) == if x.v * y.v < FULL then Some(CVal(UINTMAX, x.v * y.v)) else None
  {
    hide SumParts, Cross, LowProduct, High, Low;
    var cross, low := ProductInParts(x, y);
    SumPartsWide(BothHigh(x, y), Cross(x, y).v, LowProduct(x, y).v);
  }

  /** Past the trivial operands, an unsigned multiply is the product of the magnitudes. */
  lemma UnsignedMul(c: CType, a: Typed, b: Typed)
    requires c.Valid() && !c.signed && a.t == b.t == c && !Trivial(a, b)
    ensures Mul(c, a, b) == MulMagnitudes(c, a, b)
  {
  }

  /** For every unsigned type up to 64 bits the half-word decomposition is exact. */
  lemma UnsignedMulExact(c: CType, a: Typed, b: Typed)
    requires c.Valid() && !c.signed && a.t == b.t == c
    ensures Exact(c, a, b)
  {
    hide Times, MulMagnitudes, Magnitude;
    assert a.v * b.v >= 0;
    if Trivial(a, b) {
      TrivialTimes(c, a, b);
    } else {
      UnsignedMul(c, a, b);
      if c == UINTMAX { WideMagnitudes(a, b); } else { NarrowMagnitudes(c, a, b); }
    }
  }

  // ----- the signed multiply: exact only off a family of operands -----

  const LONG := CType(0x4000_0000_0000_0000, true)

  predicate OppositeSigns(a: Typed, b: Typed) { (a.v < 0) != (b.v < 0) }

  /** Past the trivial operands, a signed multiply restores the sign of the magnitudes' product. */
  lemma SignedMul(c: CType, a: Typed, b: Typed)
    requires c.Valid() && c.signed && a.t == b.t == c && !Trivial(a, b) && Negatable(a) && Negatable(b)
    ensures
      var m := MulMagnitudes(c, Magnitude(a), Magnitude(b));
      Mul(c, a, b) == if m == None then None
                      else Some(CVal(c, if OppositeSigns(a, b) then -m.value.v else m.value.v))
  {
    hide MulMagnitudes, Magnitude;
  }

  lemma SignOfProduct(a: int, b: int, x: int, y: int)
    requires x == (if a < 0 then -a else a) && y == (if b < 0 then -b else b) && x >= 1 && y >= 1
    ensures a * b == if (a < 0) != (b < 0) then -(x * y) else x * y
    ensures x * y >= 1
  {
  }

  /** The least char or short is its own magnitude, which widens to a huge word and is refused. */
  lemma LeastRefused(c: CType, x: Typed, y: Typed)
    requires c.Valid() && c.signed && c.quarter < INT.quarter && x.t == y.t == c
    requires x.v == c.Lo() && (y.v >= 1 || y.v == c.Lo())
    ensures MulMagnitudes(c, x, y) == None && MulMagnitudes(c, y, x) == None
  {
    hide AddWide;
    assert High(x) == HMASK && Low(x) == HALF + c.Lo();
    if y.v >= 1 {
      NarrowHasNoHigh(c, y);
      LeastTimesSmall(c, x, y);
      LeastTimesSmall(c, y, x);
    }
  }

  lemma LeastTimesSmall(c: CType, x: Typed, y: Typed)
    requires c.Valid() && c.signed && c.quarter < INT.quarter
    requires High(x) * Low(y) + Low(x) * High(y) >= HMASK && !BothHigh(x, y)
    requires High(x) * Low(y) + Low(x) * High(y) == HMASK ==> Low(x) * Low(y) == HALF + c.Lo()
    ensures MulMagnitudes(c, x, y) == None
  {
    hide High, Low, Cross, LowProduct, AddWide;
    HalfProductsExact(x, y);
    if Cross(x, y).v == HMASK {
      assert LowProduct(x, y).v == HALF + c.Lo();
      SumOfLeast(c);
    }
  }

  lemma SumOfLeast(c: CType)
    requires c.Valid() && c.signed && c.quarter < INT.quarter
    ensures SumParts(c, false, HMASK, HALF + c.Lo()) == None
  {
    hide IntofMin, IntofMax;
    assert Plus(Word(HMASK * HALF), Word(HALF + c.Lo())).v == FULL + c.Lo();
  }

  /** Below 64 bits the one lost product is the type's minimum, which the positive sum cannot hold. */
  lemma NarrowSignedMulExact(c: CType, a: Typed, b: Typed)
    requires c.Valid() && c.signed && c.quarter <= INT.quarter && a.t == b.t == c && Negatable(a) && Negatable(b)
    ensures Exact(c, a, b) <==> Trivial(a, b) || a.v * b.v != c.Lo()
  {
    hide Times, MulMagnitudes, Magnitude;
    if Trivial(a, b) {
      TrivialTimes(c, a, b);
    } else {
      SignedMul(c, a, b);
      if a.v == c.Lo() || b.v == c.Lo() {
        LeastMul(c, a, b);
      } else {
        var x, y := Magnitude(a), Magnitude(b);
        SignOfProduct(a.v, b.v, x.v, y.v);
        NarrowMagnitudes(c, x, y);
      }
    }
  }

  lemma LeastMul(c: CType, a: Typed, b: Typed)
    requires c.Valid() && c.signed && c.quarter < INT.quarter && a.t == b.t == c && !Trivial(a, b)
    requires a.v == c.Lo() || b.v == c.Lo()
    ensures MulMagnitudes(c, Magnitude(a), Magnitude(b)) == None
    ensures a.v * b.v > c.Hi() || a.v * b.v < c.Lo()
  {
    hide MulMagnitudes, Magnitude;
    LeastMagnitude(c, a);
    LeastMagnitude(c, b);
    if a.v == c.Lo() {
      LeastRefused(c, Magnitude(a), Magnitude(b));
      OutOfRange(c, b.v);
    } else {
      LeastRefused(c, Magnitude(b), Magnitude(a));
      OutOfRange(c, a.v);
    }
  }

  lemma OutOfRange(c: CType, v: int)
    requires c.Valid() && c.signed && (v >= 2 || v <= -1)
    ensures c.Lo() * v == v * c.Lo() && (c.Lo() * v > c.Hi() || c.Lo() * v < c.Lo())
  {
  }

  lemma LeastMagnitude(c: CType, x: Typed)
    requires c.Valid() && c.signed && c.quarter < INT.quarter && x.t == c && x.v != 0
    ensures Magnitude(x).v == if x.v < 0 && x.v > c.Lo() then -x.v else x.v
  {
  }

  /** With a signed 64-bit sum the guards compare a signed limit as an unsigned number. */
  lemma AddWideLong(a: Typed, b: Typed)
    requires a.t == b.t == UINTMAX
    ensures AddWide(LONG, a, b) ==
            if b.v >= 1 && a.v + b.v <= LONG.Hi() then Some(CVal(LONG, a.v + b.v))
            else if b.v > LONG.Hi() && FULL <= a.v + b.v <= FULL + LONG.Hi() then Some(CVal(LONG, a.v + b.v - FULL))
            else None
  {
    hide IntofMin, IntofMax;
  }

  /** The product runs once around 2^64 and lands back in the positive half. */
  predicate RunsAround(x: Typed, y: Typed) {
    !BothHigh(x, y) && Low(x) * Low(y) > LONG.Hi() && FULL <= x.v * y.v <= FULL + LONG.Hi()
  }

  lemma LongMagnitudes(x: Typed, y: Typed)
    requires x.v >= 0 && y.v >= 0
    ensures MulMagnitudes(LONG, x, y) ==
            if x.v * y.v <= LONG.Hi() && Low(x) * Low(y) != 0 then Some(CVal(LONG, x.v * y.v))
            else if RunsAround(x, y) then Some(CVal(LONG, x.v * y.v - FULL))
            else None
  {
    hide Cross, LowProduct, High, Low, AddWide;
    var cross, low := ProductInParts(x, y);
    if !BothHigh(x, y) && cross <= HMASK {
      AddWideLong(Word(cross * HALF), Word(low));
    }
  }

  /**
   * The operands on which the 64-bit signed multiply is right.  It refuses every product whose low
   * half-words multiply to zero, refuses the minimum, and accepts a product that runs around 2^64.
   */
  predicate LongMulHolds(a: Typed, b: Typed)
    requires a.t == b.t == LONG && a.v > LONG.Lo() && b.v > LONG.Lo()
  {
    var x, y := Magnitude(a), Magnitude(b);
    Trivial(a, b) ||
    if x.v * y.v <= LONG.Hi() then Low(x) * Low(y) != 0
    else !RunsAround(x, y) && !(x.v * y.v == LONG.Hi() + 1 && OppositeSigns(a, b))
  }

  lemma LongMulExact(a: Typed, b: Typed)
    requires a.t == b.t == LONG && a.v > LONG.Lo() && b.v > LONG.Lo()
    ensures Exact(LONG, a, b) <==> LongMulHolds(a, b)
  {
    hide Times, MulMagnitudes, Magnitude, RunsAround, Low;
    if Trivial(a, b) {
      TrivialTimes(LONG, a, b);
    } else {
      var x, y := Magnitude(a), Magnitude(b);
      SignedMul(LONG, a, b);
      SignOfProduct(a.v, b.v, x.v, y.v);
      LongMagnitudes(x, y);
      RunsAroundMeans(x, y);
    }
  }

  lemma RunsAroundMeans(x: Typed, y: Typed)
    ensures RunsAround(x, y) ==> FULL <= x.v * y.v <= FULL + LONG.Hi()
  {
  }

  /** 2^32 * 2 is reported as an overflow. */
  lemma LongMulRefuses(a: Typed, b: Typed)
    requires a == CVal(LONG, 0x1_0000_0000) && b == CVal(LONG, 2)
    ensures Mul(LONG, a, b) == None && LONG.Fits(a.v * b.v)
  {
    hide Mul, MulMagnitudes;
    SignedMul(LONG, a, b);
    LongMagnitudes(a, b);
  }

  /** 7394967296 * 3100000000 is reported as a smaller product. */
  lemma LongMulMisreports(a: Typed, b: Typed)
    requires a == CVal(LONG, 7394967296) && b == CVal(LONG, 3100000000)
    ensures Mul(LONG, a, b) == Some(CVal(LONG, a.v * b.v - FULL)) && !LONG.Fits(a.v * b.v)
  {
    hide Mul, MulMagnitudes;
    SignedMul(LONG, a, b);
    LongMagnitudes(a, b);
  }
}
