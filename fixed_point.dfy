/** Fixed-point numbers: headers/FixedImpl.h, headers/Fixed.h and headers/FastFixed.h.
    A value of FixedImpl<V, K> is a raw signed mantissa `raw` stored in the integer type V;
    it stands for raw / 2^K. The storage types are the two's-complement integers int8_t ..
    int64_t, so every store into V wraps modulo 2^width. */
module FixedPoint {

  datatype Option<T> = None | Some(value: T)

  /** 2^n. */
  function Pow2(n: nat): (r: int)
    ensures r >= 1
  {
    if n == 0 then 1 else 2 * Pow2(n - 1)
  }

  lemma {:induction false} Pow2Add(a: nat, b: nat)
    ensures Pow2(a + b) == Pow2(a) * Pow2(b)
  {
    if b > 0 {
      Pow2Add(a, b - 1);
      assert Pow2(a + b) == 2 * Pow2(a + b - 1);
    }
  }

  lemma {:induction false} Pow2Monotone(a: nat, b: nat)
    requires a <= b
    ensures Pow2(a) <= Pow2(b)
  {
    if a < b {
      Pow2Monotone(a, b - 1);
    }
  }

  lemma MulAtLeast(k: int, p: int)
    requires k >= 1 && p > 0
    ensures k * p >= p
  {
    assert (k - 1) * p >= 0;
  }

  lemma MulLeq(a: nat, b: nat, p: nat)
    requires a <= b
    ensures a * p <= b * p
  {
    assert b * p - a * p == (b - a) * p;
  }

  /** Quotient and remainder are determined by any decomposition a == q * p + r with 0 <= r < p. */
  lemma DivModUnique(a: int, p: int, q: int, r: int)
    requires p > 0 && a == q * p + r && 0 <= r < p
    ensures a % p == r && a / p == q
  {
    var q0, r0 := a / p, a % p;
    var d := q - q0;
    assert d * p == r0 - r by { assert d * p == q * p - q0 * p; }
    if d >= 1 {
      MulAtLeast(d, p);
    } else if d <= -1 {
      MulAtLeast(-d, p);
    }
  }

  /** Reduction of x into [-h, h) modulo 2h. */
  function Mod2(x: int, h: int): (r: int)
    requires h > 0
    ensures -h <= r < h
  {
    (x + h) % (2 * h) - h
  }

  lemma Mod2Fits(x: int, h: int)
    requires h > 0
    ensures -h <= x < h ==> Mod2(x, h) == x
  {
    if -h <= x < h {
      DivModUnique(x + h, 2 * h, 0, x + h);
    }
  }

  lemma Mod2Shift(x: int, h: int, c: int)
    requires h > 0
    ensures Mod2(x + c * (2 * h), h) == Mod2(x, h)
  {
    var P := 2 * h;
    var y := x + h;
    var q, r := y / P, y % P;
    assert y == q * P + r;
    assert (q + c) * P == q * P + c * P;
    DivModUnique(y + c * P, P, q + c, r);
    assert x + c * P + h == y + c * P;
  }

  lemma Mod2Congruent(x: int, h: int) returns (c: int)
    requires h > 0
    ensures Mod2(x, h) == x + c * (2 * h)
  {
    var P := 2 * h;
    c := -((x + h) / P);
    assert x + h == ((x + h) / P) * P + (x + h) % P;
  }

  lemma Pow2Succ(w: nat)
    requires w >= 1
    ensures Pow2(w) == 2 * Pow2(w - 1)
  {
  }

  /** The range of a signed integer of `w` bits. */
  predicate InWidth(w: nat, x: int)
    requires w >= 1
  {
    -Pow2(w - 1) <= x < Pow2(w - 1)
  }

  /** Storing the integer x into a signed integer of `w` bits (two's-complement truncation). */
  function Wrap(w: nat, x: int): (r: int)
    requires w >= 1
    ensures InWidth(w, r)
  {
    Mod2(x, Pow2(w - 1))
  }

  /** The stored value differs from x by a multiple of 2^w. */
  lemma WrapCongruent(w: nat, x: int) returns (c: int)
    requires w >= 1
    ensures Wrap(w, x) == x + c * Pow2(w)
  {
    Pow2Succ(w);
    c := Mod2Congruent(x, Pow2(w - 1));
  }

  /** A value that already fits is stored unchanged. */
  lemma WrapFits(w: nat, x: int)
    requires w >= 1
    ensures InWidth(w, x) ==> Wrap(w, x) == x
  {
    Mod2Fits(x, Pow2(w - 1));
  }

  /** Exact sums and differences of raw values are sums and differences of the numbers. */
  lemma RawSumValue(x: int, y: int, k: nat)
    ensures (x + y) as real / Pow2(k) as real == x as real / Pow2(k) as real + y as real / Pow2(k) as real
    ensures (x - y) as real / Pow2(k) as real == x as real / Pow2(k) as real - y as real / Pow2(k) as real
  {
  }

  /** Adding a multiple of 2^w does not change the stored value. */
  lemma WrapShift(w: nat, x: int, c: int)
    requires w >= 1
    ensures Wrap(w, x + c * Pow2(w)) == Wrap(w, x)
  {
    var h := Pow2(w - 1);
    Pow2Succ(w);
    assert x + c * Pow2(w) == x + c * (2 * h);
    Mod2Shift(x, h, c);
  }

  /** Truncating first to a wider type and then to a narrower one is the same as truncating
      to the narrower one directly: intermediate C++ promotions wider than V do not matter. */
  lemma WrapWrap(w: nat, p: nat, x: int)
    requires 1 <= w <= p
    ensures Wrap(w, Wrap(p, x)) == Wrap(w, x)
  {
    var c := WrapCongruent(p, x);
    Pow2Add(w, p - w);
    assert c * Pow2(p) == (c * Pow2(p - w)) * Pow2(w);
    WrapShift(w, x, c * Pow2(p - w));
  }

  // ---------------------------------------------------------------------------------
  // Types: headers/Fixed.h and headers/FastFixed.h

  /** FixedImpl<V, K>: V is a signed integer type of `width` bits, K the fractional bits. */
  datatype FxType = FxType(width: nat, k: nat)
  {
    predicate Valid() { width in {8, 16, 32, 64} }
  }

  /** nSizeType<N>::type: only 8, 16, 32 and 64 have a specialisation; any other width
      names an undefined template, which is None here. */
  function StorageWidth(n: nat): (r: Option<nat>)
    ensures r.Some? <==> n in {8, 16, 32, 64}
    ensures r.Some? ==> r.value == n
  {
    if n == 8 || n == 16 || n == 32 || n == 64 then Some(n) else None
  }

  /** Fixed<N, K>: defined only when N >= K and nSizeType<N> exists. */
  function FixedOf(n: nat, k: nat): (r: Option<FxType>)
    ensures r.Some? <==> n >= k && StorageWidth(n).Some?
    ensures r.Some? ==> r.value.Valid() && r.value.width == n && r.value.k == k
  {
    if n >= k then
      match StorageWidth(n)
      case Some(w) => Some(FxType(w, k))
      case None => None
    else None
  }

  /** FastFixedWrap<N, K>: stop at a native width, otherwise try N + 1. Past 64 the template
      recursion has no stopping point, which is None here. */
  function FastWidth(n: nat): (r: Option<nat>)
    ensures r.Some? ==> r.value >= n && StorageWidth(r.value).Some?
    decreases 65 - n
  {
    if StorageWidth(n).Some? then Some(n)
    else if n >= 64 then None
    else FastWidth(n + 1)
  }

  /** The smallest native width that is at least n, stated independently of the recursion. */
  function SmallestNative(n: nat): Option<nat>
  {
    if n <= 8 then Some(8)
    else if n <= 16 then Some(16)
    else if n <= 32 then Some(32)
    else if n <= 64 then Some(64)
    else None
  }

  lemma {:induction false} FastWidthIsSmallest(n: nat)
    ensures FastWidth(n) == SmallestNative(n)
    ensures FastWidth(n).Some? <==> n <= 64
    ensures FastWidth(n).Some? ==> FastWidth(n).value >= n && StorageWidth(FastWidth(n).value).Some?
    decreases 65 - n
  {
    if StorageWidth(n).None? && n < 64 {
      FastWidthIsSmallest(n + 1);
    }
  }

  /** FastFixed<N, K> = Fixed<W, K> for the selected native width W; K is carried unchanged. */
  function FastFixedOf(n: nat, k: nat): (r: Option<FxType>)
    ensures r.Some? ==> r.value.Valid() && r.value.k == k && r.value.width >= n
  {
    match FastWidth(n)
    case Some(w) => FastWidthIsSmallest(n); FixedOf(w, k)
    case None => None
  }

  lemma FastFixedNative(n: nat, k: nat)
    requires n in {8, 16, 32, 64}
    ensures FastFixedOf(n, k) == FixedOf(n, k)
  {
  }

  lemma FastFixedSelects(n: nat, k: nat)
    ensures FastFixedOf(n, k).Some? <==> n <= 64 && SmallestNative(n).value >= k
    ensures FastFixedOf(n, k).Some? ==> FastFixedOf(n, k).value == FxType(SmallestNative(n).value, k)
  {
    FastWidthIsSmallest(n);
  }

  // ---------------------------------------------------------------------------------
  // Values: headers/FixedImpl.h

  datatype Fx = Fx(ty: FxType, raw: int)
  {
    predicate Valid() { ty.Valid() && InWidth(ty.width, raw) }

    /** The number the value stands for. */
    function Value(): real { raw as real / Pow2(ty.k) as real }
  }

  /** The default constructor. */
  function Zero(ty: FxType): (r: Fx)
    requires ty.Valid()
    ensures r.Valid() && r.ty == ty && r.Value() == 0.0
  {
    Fx(ty, 0)
  }

  /** from_raw(x): x (an int64_t) is stored into V. */
  function FromRaw(ty: FxType, x: int): (r: Fx)
    requires ty.Valid() && InWidth(64, x)
    ensures r.Valid() && r.ty == ty
    ensures r.raw == Wrap(ty.width, x)
    ensures InWidth(ty.width, x) ==> r.raw == x
  {
    WrapFits(ty.width, x);
    Fx(ty, Wrap(ty.width, x))
  }

  /** FixedImpl(int64_t n): `n << K` computed in int64_t, then stored into V. A shift of
      64 or more bits is undefined in C++, hence k < 64. */
  function FromInt(ty: FxType, n: int): (r: Fx)
    requires ty.Valid() && ty.k < 64 && InWidth(64, n)
    ensures r.Valid() && r.ty == ty
  {
    Fx(ty, Wrap(ty.width, Wrap(64, n * Pow2(ty.k))))
  }

  /** A value stands for 1 exactly when its raw value is 2^K. */
  lemma ValueOne(x: Fx)
    ensures x.Value() == 1.0 <==> x.raw == Pow2(x.ty.k)
  {
    var P := Pow2(x.ty.k) as real;
    assert P > 0.0;
    if x.Value() == 1.0 {
      assert x.raw as real == x.Value() * P;
    }
  }

  /** 2^(w-1) and 2^w, stored into w bits, give the minimum and 0. */
  lemma WrapPowers(w: nat)
    requires w >= 1
    ensures Wrap(w, Pow2(w - 1)) == -Pow2(w - 1)
    ensures Wrap(w, Pow2(w)) == 0
  {
    Pow2Succ(w);
    WrapShift(w, -Pow2(w - 1), 1);
    WrapFits(w, -Pow2(w - 1));
    WrapShift(w, 0, 1);
    WrapFits(w, 0);
  }

  /** The integer 1 is 2^K, computed in int64_t and stored into V. */
  lemma FromIntOne(ty: FxType)
    requires ty.Valid() && ty.k < 64
    ensures FromInt(ty, 1).raw == Wrap(ty.width, Pow2(ty.k))
  {
    Pow2Monotone(0, 63);
    WrapWrap(ty.width, 64, Pow2(ty.k));
  }

  /** 2^K fits a signed width-bit integer exactly when K + 1 < width. */
  lemma PowerFits(w: nat, k: nat)
    requires w >= 1 && k <= w
    ensures Wrap(w, Pow2(k)) == Pow2(k) <==> k + 1 < w
  {
    WrapPowers(w);
    if k + 1 < w {
      Pow2Monotone(k + 1, w - 1);
      Pow2Succ(k + 1);
      WrapFits(w, Pow2(k));
    }
  }

  /** Fixed<N, K> only asks N >= K, so K may be N - 1 or N, and then the integer 1 does not
      fit: the integer constructor gives back the value 1 exactly when K + 1 < N. */
  lemma FixedHoldsOne(n: nat, k: nat)
    requires FixedOf(n, k).Some? && k < 64
    ensures FromInt(FixedOf(n, k).value, 1).Value() == 1.0 <==> k + 1 < n
  {
    var ty := FxType(n, k);
    assert FixedOf(n, k).value == ty;
    ValueOne(FromInt(ty, 1));
    FromIntOne(ty);
    PowerFits(n, k);
  }

  lemma ScaledValue(n: int, p: int)
    requires p >= 1
    ensures (n * p) as real / p as real == n as real
  {
    assert (n * p) as real == n as real * p as real;
  }

  /** Constructing from an integer gives the value n whenever n * 2^K fits in V. */
  lemma FromIntValue(ty: FxType, n: int)
    requires ty.Valid() && ty.k < 64 && InWidth(64, n) && InWidth(ty.width, n * Pow2(ty.k))
    ensures FromInt(ty, n).raw == n * Pow2(ty.k)
    ensures FromInt(ty, n).Value() == n as real
  {
    var x := n * Pow2(ty.k);
    Pow2Monotone(ty.width - 1, 63);
    assert InWidth(64, x);
    WrapFits(64, x);
    WrapFits(ty.width, x);
    ScaledValue(n, Pow2(ty.k));
  }

  /** The cross-K constructor FixedImpl<V, K1>(FixedImpl<V2, K2> f): for K1 >= K2 the raw
      value, cast to int64_t, is shifted left by K1 - K2 (wrapping in int64_t); otherwise it
      is shifted arithmetically right by K2 - K1, a floor division (Dafny's / is floor
      division for a positive divisor). The result is stored into V. */
  function Convert(ty: FxType, f: Fx): (r: Fx)
    requires ty.Valid() && f.Valid()
    ensures r.Valid() && r.ty == ty
    ensures ty.k >= f.ty.k && InWidth(ty.width, f.raw * Pow2(ty.k - f.ty.k)) ==>
      r.raw == f.raw * Pow2(ty.k - f.ty.k)
    ensures ty.k < f.ty.k && InWidth(ty.width, f.raw / Pow2(f.ty.k - ty.k)) ==>
      r.raw * Pow2(f.ty.k - ty.k) <= f.raw < (r.raw + 1) * Pow2(f.ty.k - ty.k)
  {
    if ty.k >= f.ty.k then
      WidenFits(ty.width, f.raw * Pow2(ty.k - f.ty.k));
      Fx(ty, Wrap(ty.width, Wrap(64, f.raw * Pow2(ty.k - f.ty.k))))
    else
      var q := f.raw / Pow2(f.ty.k - ty.k);
      WrapFits(ty.width, q);
      FloorBracket(f.raw, Pow2(f.ty.k - ty.k));
      Fx(ty, Wrap(ty.width, q))
  }

  /** A value that fits a native width is stored unchanged through int64_t and then V. */
  lemma WidenFits(w: nat, x: int)
    requires w in {8, 16, 32, 64}
    ensures InWidth(w, x) ==> Wrap(w, Wrap(64, x)) == x
  {
    if InWidth(w, x) {
      Pow2Monotone(w - 1, 63);
      WrapFits(64, x);
      WrapFits(w, x);
    }
  }

  /** The floor quotient brackets the dividend. */
  lemma FloorBracket(x: int, p: int)
    requires p > 0
    ensures (x / p) * p <= x < (x / p + 1) * p
  {
  }

  /** The type a C++ integer of this width is promoted to in a shift: int, or itself. */
  function Promoted(w: nat): nat { if w < 32 then 32 else w }

  /** The right operand of operator+ and operator-, realigned to K1 fractional bits: for
      K1 > K2 a left shift by K1 - K2 in the promoted type of V2, otherwise an arithmetic
      right shift by K2 - K1 (no shift at all when K1 == K2). */
  function Aligned(b: Fx, k1: nat): (r: int)
    requires b.Valid()
    ensures k1 > b.ty.k ==> InWidth(Promoted(b.ty.width), r)
    ensures k1 > b.ty.k && InWidth(Promoted(b.ty.width), b.raw * Pow2(k1 - b.ty.k)) ==>
      r == b.raw * Pow2(k1 - b.ty.k)
    ensures k1 <= b.ty.k ==> r * Pow2(b.ty.k - k1) <= b.raw < (r + 1) * Pow2(b.ty.k - k1)
  {
    if k1 > b.ty.k then
      WrapFits(Promoted(b.ty.width), b.raw * Pow2(k1 - b.ty.k));
      Wrap(Promoted(b.ty.width), b.raw * Pow2(k1 - b.ty.k))
    else b.raw / Pow2(b.ty.k - k1)
  }

  lemma AlignedSameK(b: Fx)
    requires b.Valid()
    ensures Aligned(b, b.ty.k) == b.raw
  {
    assert Pow2(0) == 1;
  }

  /** operator+: the sum of the left raw value and the realigned right one, stored into V1.
      The sum itself is computed in a type at least as wide as V1, which WrapWrap shows
      does not change the stored value. */
  function Add(a: Fx, b: Fx): (r: Fx)
    requires a.Valid() && b.Valid()
    ensures r.Valid() && r.ty == a.ty
    ensures a.ty.k == b.ty.k ==> r.raw == Wrap(a.ty.width, a.raw + b.raw)
    ensures a.ty.k == b.ty.k && InWidth(a.ty.width, a.raw + b.raw) ==> r.Value() == a.Value() + b.Value()
  {
    WrapFits(a.ty.width, a.raw + b.raw);
    RawSumValue(a.raw, b.raw, a.ty.k);
    AlignedSameK(b);
    Fx(a.ty, Wrap(a.ty.width, a.raw + Aligned(b, a.ty.k)))
  }

  /** operator-, realigning exactly as operator+ does. */
  function Sub(a: Fx, b: Fx): (r: Fx)
    requires a.Valid() && b.Valid()
    ensures r.Valid() && r.ty == a.ty
    ensures a.ty.k == b.ty.k ==> r.raw == Wrap(a.ty.width, a.raw - b.raw)
    ensures a.ty.k == b.ty.k && InWidth(a.ty.width, a.raw - b.raw) ==> r.Value() == a.Value() - b.Value()
  {
    WrapFits(a.ty.width, a.raw - b.raw);
    RawSumValue(a.raw, b.raw, a.ty.k);
    AlignedSameK(b);
    Fx(a.ty, Wrap(a.ty.width, a.raw - Aligned(b, a.ty.k)))
  }

  lemma NegWrap(w: nat, x: int)
    requires w >= 1 && InWidth(w, x)
    ensures x != -Pow2(w - 1) ==> Wrap(w, -x) == -x
    ensures x == -Pow2(w - 1) ==> Wrap(w, -x) == x
  {
    WrapFits(w, -x);
    WrapShift(w, -x, -1);
    WrapFits(w, x);
  }

  /** Unary minus: the negated raw value stored into V. */
  function Neg(a: Fx): (r: Fx)
    requires a.Valid()
    ensures r.Valid() && r.ty == a.ty
    ensures a.raw != -Pow2(a.ty.width - 1) ==> r.raw == -a.raw && r.Value() == -a.Value()
    ensures a.raw == -Pow2(a.ty.width - 1) ==> r == a
  {
    NegWrap(a.ty.width, a.raw);
    Fx(a.ty, Wrap(a.ty.width, -a.raw))
  }

  /** The defaulted operator<=> and operator== compare the raw members of one type. */
  function Compare(a: Fx, b: Fx): (r: int)
    requires a.ty == b.ty
    ensures r < 0 <==> a.raw < b.raw
    ensures r == 0 <==> a == b
  {
    if a.raw < b.raw then -1 else if a.raw == b.raw then 0 else 1
  }

  // ---------------------------------------------------------------------------------
  // Properties

  /** For one type, the raw order is the order of the numbers the values stand for. */
  lemma CompareMatchesValue(a: Fx, b: Fx)
    requires a.ty == b.ty
    ensures Compare(a, b) < 0 <==> a.Value() < b.Value()
    ensures Compare(a, b) == 0 <==> a.Value() == b.Value()
  {
    var P := Pow2(a.ty.k) as real;
    assert a.Value() * P == a.raw as real;
    assert b.Value() * P == b.raw as real;
  }

  /** Double negation is the identity (at the minimum of V, negation is already a fixpoint). */
  lemma NegNeg(a: Fx)
    requires a.Valid()
    ensures Neg(Neg(a)) == a
  {
  }

  /** With one type, subtracting what was added gives back the left operand, even when
      the sum wrapped around. */
  lemma AddThenSub(a: Fx, b: Fx)
    requires a.Valid() && b.Valid() && a.ty == b.ty
    ensures Sub(Add(a, b), b) == a
  {
    var w := a.ty.width;
    AlignedSameK(b);
    var s := Add(a, b);
    assert s.raw == Wrap(w, a.raw + b.raw);
    var c := WrapCongruent(w, a.raw + b.raw);
    assert s.raw - b.raw == a.raw + c * Pow2(w);
    WrapShift(w, a.raw, c);
    WrapFits(w, a.raw);
  }

  /** Adding a value of another K is adding it after realignment to the left operand's K,
      as long as a left shift does not overflow the shifted operand's promoted type and the
      realigned value fits the left operand's type. */
  lemma AddRealigns(a: Fx, b: Fx)
    requires a.Valid() && b.Valid()
    requires a.ty.k > b.ty.k ==> InWidth(Promoted(b.ty.width), b.raw * Pow2(a.ty.k - b.ty.k)) &&
                                 InWidth(a.ty.width, b.raw * Pow2(a.ty.k - b.ty.k))
    requires a.ty.k <= b.ty.k ==> InWidth(a.ty.width, b.raw / Pow2(b.ty.k - a.ty.k))
    ensures Add(a, b) == Add(a, Convert(a.ty, b))
  {
    var c := Convert(a.ty, b);
    ConvertAligned(a.ty, b);
    AlignedSameK(c);
    AddSameAligned(a, b, c);
  }

  /** Add looks at its second operand only through its realigned raw value. */
  lemma AddSameAligned(a: Fx, b: Fx, c: Fx)
    requires a.Valid() && b.Valid() && c.Valid()
    requires Aligned(b, a.ty.k) == Aligned(c, a.ty.k)
    ensures Add(a, b) == Add(a, c)
  {
  }

  /** When the converted value fits, the cross-K constructor stores what Add realigns to. */
  lemma ConvertAligned(ty: FxType, b: Fx)
    requires ty.Valid() && b.Valid()
    requires ty.k > b.ty.k ==> InWidth(Promoted(b.ty.width), b.raw * Pow2(ty.k - b.ty.k)) &&
                               InWidth(ty.width, b.raw * Pow2(ty.k - b.ty.k))
    requires ty.k <= b.ty.k ==> InWidth(ty.width, b.raw / Pow2(b.ty.k - ty.k))
    ensures Convert(ty, b).raw == Aligned(b, ty.k)
  {
    if ty.k == b.ty.k {
      assert Pow2(0) == 1;
      assert b.raw / Pow2(b.ty.k - ty.k) == b.raw;
      ConvertAlignedSame(ty, b);
    } else if ty.k < b.ty.k {
      ConvertAlignedDown(ty, b);
    }
  }

  lemma ConvertAlignedSame(ty: FxType, b: Fx)
    requires ty.Valid() && b.Valid() && ty.k == b.ty.k && InWidth(ty.width, b.raw)
    ensures Convert(ty, b).raw == Aligned(b, ty.k)
  {
    assert Pow2(0) == 1;
    AlignedSameK(b);
    assert b.raw * Pow2(ty.k - b.ty.k) == b.raw;
    WidenFits(ty.width, b.raw);
  }

  lemma ConvertAlignedDown(ty: FxType, b: Fx)
    requires ty.Valid() && b.Valid() && ty.k < b.ty.k
    requires InWidth(ty.width, b.raw / Pow2(b.ty.k - ty.k))
    ensures Convert(ty, b).raw == Aligned(b, ty.k)
  {
    WrapFits(ty.width, b.raw / Pow2(b.ty.k - ty.k));
  }


  lemma ConvertRoundTrip(a: Fx, wide: FxType)
    requires a.Valid() && wide.Valid() && wide.k >= a.ty.k
    requires InWidth(wide.width, a.raw * Pow2(wide.k - a.ty.k))
    ensures Convert(a.ty, Convert(wide, a)) == a
  {
    var c := Convert(wide, a);
    assert c.raw == a.raw * Pow2(wide.k - a.ty.k);
    NarrowExact(a, c);
  }

  /** Narrowing a value that came from a widening by the same shift is exact. */
  lemma NarrowExact(a: Fx, c: Fx)
    requires a.Valid() && c.Valid() && c.ty.k >= a.ty.k
    requires c.raw == a.raw * Pow2(c.ty.k - a.ty.k)
    ensures Convert(a.ty, c) == a
  {
    var d := c.ty.k - a.ty.k;
    WrapFits(a.ty.width, a.raw);
    if d == 0 {
      assert Pow2(0) == 1;
      assert c.raw == a.raw;
      WidenFits(a.ty.width, a.raw);
      assert a.raw * Pow2(0) == a.raw;
    } else {
      DivModUnique(c.raw, Pow2(d), a.raw, 0);
    }
  }


  /** a += b and a -= b assign a + b and a - b into their left operand. */
  class FixedVar {
    var val: Fx

    constructor (v: Fx)
      ensures val == v
    {
      val := v;
    }

    method AddAssign(b: Fx) returns (r: Fx)
      requires val.Valid() && b.Valid()
      modifies this
      ensures val == Add(old(val), b) && r == val
    {
      val := Add(val, b);
      r := val;
    }

    method SubAssign(b: Fx) returns (r: Fx)
      requires val.Valid() && b.Valid()
      modifies this
      ensures val == Sub(old(val), b) && r == val
    {
      val := Sub(val, b);
      r := val;
    }
  }
}
